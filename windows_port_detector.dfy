/** WindowsPortDetector: two `wmic` association listings give the physical drive of a drive
    letter, `wmic` gives that drive's PNP device id, the registry its ContainerID, and a scan
    of the USB enumeration keys the LocationInformation of the hub port with that container.
    Every exception on the way becomes a PortDetectionException. */
module WindowsPorts {
  import opened Base
  import opened JavaStrings
  import opened WindowsRegistry

  const LogicalDisksCmd := "wmic partition assoc /assocclass:Win32_LogicalDiskToPartition"
  const DrivesCmd := "wmic DiskDrive Assoc /assocclass:Win32_DiskDriveToDiskPartition"
  const RegistryLocation := "HKEY_LOCAL_MACHINE\\SYSTEM\\CurrentControlSet\\Enum\\USB"
  const EnumPrefix := "HKLM\\SYSTEM\\CurrentControlSet\\Enum\\"
  const PartitionMarker := "Win32_DiskPartition.DeviceID"
  const LogicalDiskMarker := "Win32_LogicalDisk.DeviceID"
  const DriveMarker := "Win32_DiskDrive.DeviceID"
  const ContainerKey := "ContainerID"
  const LocationKey := "LocationInformation"
  /** The prefix of the association lines: two backslashes, as in \\HOST\ROOT\CIMV2:... */
  const UncPrefix := "\\\\"

  // ---------------------------------------------------------------------------
  // The association parsers

  /** The split pattern `marker + "=\""`; its '.' matches any character but a line terminator. */
  function IdPattern(marker: string): Separator { Regex(marker + "=\"") }

  /** `line.split(marker + "=\"")[1]` cut before its first '"'. The index throws when fewer
      than two fields remain, the substring when no '"' follows. */
  function ExtractId(line: string, marker: string): (r: Result<string>)
    ensures r.Ok? ==> '"' !in r.value
    ensures r.Ok? ==> var k := FirstMatch(IdPattern(marker), line, 0);
      k < |line| && OccursAt(line, k + |marker| + 2, r.value + "\"")
  {
    var parts := Split(IdPattern(marker), line);
    if |parts| < 2 then Thrown
    else
      var q := IndexOf(parts[1], '"');
      if q < 0 then Thrown
      else
        ExtractIdPlace(line, marker, q);
        Ok(parts[1][..q])
  }

  lemma ExtractIdPlace(line: string, marker: string, q: nat)
    requires |Split(IdPattern(marker), line)| >= 2
    requires q < |Split(IdPattern(marker), line)[1]| && Split(IdPattern(marker), line)[1][q] == '"'
    ensures var k := FirstMatch(IdPattern(marker), line, 0);
      k < |line| && OccursAt(line, k + |marker| + 2, Split(IdPattern(marker), line)[1][..q] + "\"")
  {
    var sep := IdPattern(marker);
    var f := Split(sep, line)[1];
    SecondField(sep, line);
    var k := FirstMatch(sep, line, 0);
    assert MatchLength(sep, line, k) == |marker| + 2;
    OccursPrefix(line, k + |marker| + 2, f, q + 1);
    assert f[..q] + "\"" == f[..q + 1];
  }

  /** `.map(String::trim)`: every line trimmed, in place. */
  function TrimAll(lines: seq<string>): (r: seq<string>)
    ensures |r| == |lines|
    ensures forall i :: 0 <= i < |r| ==> r[i] == Trim(lines[i])
    ensures NoBreaks(lines) ==> NoBreaks(r)
  {
    var r := seq(|lines|, i requires 0 <= i < |lines| => Trim(lines[i]));
    assert NoBreaks(lines) ==> NoBreaks(r) by {
      if NoBreaks(lines) {
        forall i | 0 <= i < |r| ensures '\n' !in r[i] { TrimKeepsOut(lines[i], '\n'); }
      }
    }
    r
  }

  /** `.filter(l -> l.startsWith("\\\\"))`: the lines that start with two backslashes, in
      order. */
  function UncOnly(lines: seq<string>): (r: seq<string>)
    ensures forall i :: 0 <= i < |r| ==> StartsWith(r[i], UncPrefix)
    ensures NoBreaks(lines) ==> NoBreaks(r)
  {
    if lines == [] then []
    else
      assert NoBreaks(lines) ==> NoBreaks(lines[1..]) by {
        if NoBreaks(lines) {
          forall i | 0 <= i < |lines[1..]| ensures '\n' !in lines[1..][i] { assert lines[1..][i] == lines[i + 1]; }
        }
      }
      (if StartsWith(lines[0], UncPrefix) then [lines[0]] else []) + UncOnly(lines[1..])
  }

  /** The trimmed lines that start with two backslashes, in order. */
  function UncLines(lines: seq<string>): (r: seq<string>)
    ensures forall i :: 0 <= i < |r| ==> StartsWith(r[i], UncPrefix)
    ensures NoBreaks(lines) ==> NoBreaks(r)
  {
    UncOnly(TrimAll(lines))
  }

  /** No line holds a line break. */
  predicate NoBreaks(lines: seq<string>)
  {
    forall i :: 0 <= i < |lines| ==> '\n' !in lines[i]
  }

  /** The filter keeps a line exactly when it is one of its input lines and starts with two
      backslashes. */
  lemma {:induction false} UncOnlyExact(lines: seq<string>, x: string)
    ensures x in UncOnly(lines) <==> StartsWith(x, UncPrefix) && x in lines
  {
    if lines != [] {
      UncOnlyExact(lines[1..], x);
      assert lines == [lines[0]] + lines[1..];
    }
  }

  /** A line is kept exactly when it is the trimmed form of an input line and starts with
      two backslashes. */
  lemma UncLinesExact(lines: seq<string>, x: string)
    ensures x in UncLines(lines) <==>
      StartsWith(x, UncPrefix) && exists j :: 0 <= j < |lines| && x == Trim(lines[j])
  {
    var t := TrimAll(lines);
    UncOnlyExact(t, x);
    assert x in t <==> exists j :: 0 <= j < |lines| && x == Trim(lines[j]) by {
      if x in t {
        var j :| 0 <= j < |t| && t[j] == x;
        assert x == Trim(lines[j]);
      }
    }
  }

  /** The filter distributes over concatenation. */
  lemma {:induction false} UncOnlyAppend(xs: seq<string>, ys: seq<string>)
    ensures UncOnly(xs + ys) == UncOnly(xs) + UncOnly(ys)
  {
    if xs == [] {
      assert xs + ys == ys;
    } else {
      UncOnlyAppend(xs[1..], ys);
      assert (xs + ys)[0] == xs[0] && (xs + ys)[1..] == xs[1..] + ys;
    }
  }

  /** Trimming and filtering distribute over concatenation, so the kept lines keep their
      order. */
  lemma UncLinesAppend(xs: seq<string>, ys: seq<string>)
    ensures UncLines(xs + ys) == UncLines(xs) + UncLines(ys)
  {
    assert TrimAll(xs + ys) == TrimAll(xs) + TrimAll(ys);
    UncOnlyAppend(TrimAll(xs), TrimAll(ys));
  }

  /** A line the filter keeps as it is: trimmed, without a line break, starting with two
      backslashes. */
  predicate IsUncLine(x: string)
  {
    '\n' !in x && StartsWith(x, UncPrefix) && !IsTrimmed(x[|x| - 1])
  }

  /** Lines that start with two backslashes all pass the filter, in order. */
  lemma {:induction false} UncOnlyKeepsAll(lines: seq<string>)
    requires forall i :: 0 <= i < |lines| ==> StartsWith(lines[i], UncPrefix)
    ensures UncOnly(lines) == lines
  {
    if lines != [] {
      var tail := lines[1..];
      assert forall i :: 0 <= i < |tail| ==> StartsWith(tail[i], UncPrefix) by {
        forall i | 0 <= i < |tail| ensures StartsWith(tail[i], UncPrefix) {
          assert tail[i] == lines[i + 1];
        }
      }
      UncOnlyKeepsAll(tail);
      assert lines == [lines[0]] + tail;
    }
  }

  /** Lines that are already trimmed and start with two backslashes are all kept, in order. */
  lemma UncLinesKeepsAll(lines: seq<string>)
    requires forall i :: 0 <= i < |lines| ==> IsUncLine(lines[i])
    ensures UncLines(lines) == lines
  {
    forall i | 0 <= i < |lines| ensures Trim(lines[i]) == lines[i] {
      var x := lines[i];
      assert IsUncLine(x) && x[0] == '\\';
      TrimUntouched(x);
    }
    assert TrimAll(lines) == lines;
    UncOnlyKeepsAll(lines);
  }

  /** `Arrays.stream(out.split("\n")).map(trim).filter(startsWith("\\\\"))`. */
  function WmicLines(out: string): (r: seq<string>)
    ensures forall i :: 0 <= i < |r| ==> StartsWith(r[i], UncPrefix) && '\n' !in r[i]
  {
    LinesHaveNoBreak(out);
    assert NoBreaks(Split(Newline, out));
    UncLines(Split(Newline, out))
  }

  /** Round trip: output made of trimmed UNC lines joined by line breaks gives exactly those
      lines back, in order. */
  lemma WmicLinesOfLines(lines: seq<string>)
    requires lines != []
    requires forall i :: 0 <= i < |lines| ==> IsUncLine(lines[i])
    ensures WmicLines(Join(lines, "\n")) == lines
  {
    assert forall i :: 0 <= i < |lines| ==> lines[i] != "" && '\n' !in lines[i] by {
      forall i | 0 <= i < |lines| ensures lines[i] != "" && '\n' !in lines[i] {
        assert IsUncLine(lines[i]) && StartsWith(lines[i], UncPrefix);
      }
    }
    SplitJoin(lines, '\n');
    UncLinesKeepsAll(lines);
  }

  /** The kept lines are joined with "\n" and split again: the same lines come back, or a
      single empty line when none was kept. */
  lemma RejoinedLines(out: string)
    ensures Split(Newline, Join(WmicLines(out), "\n")) == if WmicLines(out) == [] then [""] else WmicLines(out)
  {
    var w := WmicLines(out);
    if w != [] {
      assert forall i :: 0 <= i < |w| ==> w[i] != "" by {
        forall i | 0 <= i < |w| ensures w[i] != "" { assert StartsWith(w[i], UncPrefix); }
      }
      SplitJoin(w, '\n');
    }
  }

  /** The state of a parser loop: the running header id (null before the first header
      line) and the map filled so far. */
  datatype Association = Association(current: Option<string>, table: map<string, Option<string>>)

  /** One iteration: a line holding `header` sets the running id, then a line holding
      `entry` maps its id to the running one. A line may do both, the header first. */
  function AssociateLine(a: Association, line: string, header: string, entry: string): (r: Result<Association>)
    ensures r.Thrown? <==> BadLine(line, header, entry)
  {
    var cur: Result<Option<string>> :=
      if !Contains(line, header) then Ok(a.current)
      else match ExtractId(line, header)
        case Thrown => Thrown
        case Ok(h) => Ok(Some(h));
    match cur
    case Thrown => Thrown
    case Ok(c) =>
      if !Contains(line, entry) then Ok(Association(c, a.table))
      else match ExtractId(line, entry)
        case Thrown => Thrown
        case Ok(k) => Ok(Association(c, a.table[k := c]))
  }

  /** The loop over all lines, from an empty map and a null header. It throws exactly when
      some marked line has no extractable id; otherwise the running id at the end is that of
      the last header line, or null. */
  function Associate(lines: seq<string>, header: string, entry: string): (r: Result<Association>)
    ensures r.Thrown? <==> exists i :: 0 <= i < |lines| && BadLine(lines[i], header, entry)
    ensures r.Ok? ==> r.value.current == Recent(lines, header)
    decreases |lines|
  {
    if lines == [] then Ok(Association(None, map[]))
    else
      var init := lines[..|lines| - 1];
      assert forall i :: 0 <= i < |init| ==> init[i] == lines[i];
      match Associate(init, header, entry)
      case Thrown => Thrown
      case Ok(a) => AssociateLine(a, lines[|lines| - 1], header, entry)
  }

  /** The map one association listing gives: a null output throws on `split`, and so does
      a kept line whose id cannot be extracted; otherwise the keys are exactly the ids of
      the entry lines. */
  function AssociationTable(out: Option<string>, header: string, entry: string): (r: Result<map<string, Option<string>>>)
    ensures r.Thrown? <==> (out.None? ||
      exists i :: 0 <= i < |WmicLines(out.value)| && BadLine(WmicLines(out.value)[i], header, entry))
    ensures r.Ok? ==> forall k :: k in r.value <==> exists i :: EntryAt(WmicLines(out.value), i, entry, k)
  {
    if out.None? then Thrown
    else
      var lines := WmicLines(out.value);
      match Associate(lines, header, entry)
      case Thrown => Thrown
      case Ok(a) =>
        assert forall k :: k in a.table <==> exists i :: EntryAt(lines, i, entry, k) by {
          forall k ensures k in a.table <==> exists i :: EntryAt(lines, i, entry, k) {
            AssociateKeys(lines, header, entry, k);
          }
        }
        Ok(a.table)
  }

  lemma {:induction false} ThrownPersists(lines: seq<string>, i: nat, header: string, entry: string)
    requires i <= |lines| && Associate(lines[..i], header, entry) == Thrown
    ensures Associate(lines, header, entry) == Thrown
    decreases |lines| - i
  {
    if i < |lines| {
      assert lines[..i + 1][..i] == lines[..i];
      ThrownPersists(lines, i + 1, header, entry);
    } else {
      assert lines[..i] == lines;
    }
  }

  /** One of the two parser tasks: the body of the lambda handed to AsyncTask.of. */
  method ParseAssociations(out: Option<string>, header: string, entry: string)
    returns (r: Result<map<string, Option<string>>>)
    requires header != "" && entry != ""
    ensures r == AssociationTable(out, header, entry)
  {
    if out.None? {
      return Thrown;
    }
    var lines := Split(Newline, Join(WmicLines(out.value), "\n"));
    RejoinedLines(out.value);
    var table: map<string, Option<string>> := map[];
    var current: Option<string> := None;
    var i := 0;
    while i < |lines|
      invariant 0 <= i <= |lines|
      invariant Associate(lines[..i], header, entry) == Ok(Association(current, table))
    {
      var line := lines[i];
      AssociateNext(lines, i, header, entry);
      if Contains(line, header) {
        var partition := ExtractId(line, header);
        if partition.Thrown? {
          ThrownPersists(lines, i + 1, header, entry);
          return Thrown;
        }
        current := Some(partition.value);
      }
      if Contains(line, entry) {
        var key := ExtractId(line, entry);
        if key.Thrown? {
          ThrownPersists(lines, i + 1, header, entry);
          return Thrown;
        }
        table := table[key.value := current];
      }
      i := i + 1;
    }
    assert lines[..i] == lines;
    if WmicLines(out.value) == [] {
      NothingInEmpty(header);
      NothingInEmpty(entry);
    }
    r := Ok(table);
  }

  /** The loop's next iteration is the next step of Associate. */
  lemma AssociateNext(lines: seq<string>, i: nat, header: string, entry: string)
    requires i < |lines|
    ensures Associate(lines[..i + 1], header, entry) ==
      match Associate(lines[..i], header, entry)
      case Thrown => Thrown
      case Ok(a) => AssociateLine(a, lines[i], header, entry)
  {
    assert lines[..i + 1][..i] == lines[..i];
  }

  lemma NothingInEmpty(part: string)
    requires part != ""
    ensures !Contains("", part)
  {
  }

  // ---------------------------------------------------------------------------
  // What the parsers compute, line by line

  /** A line that makes the parser throw. */
  predicate BadLine(line: string, header: string, entry: string)
  {
    (Contains(line, header) && ExtractId(line, header).Thrown?) ||
    (Contains(line, entry) && ExtractId(line, entry).Thrown?)
  }

  /** Line `i` is an entry line with id `k`. */
  predicate EntryAt(lines: seq<string>, i: int, entry: string, k: string)
  {
    0 <= i < |lines| && Contains(lines[i], entry) && ExtractId(lines[i], entry) == Ok(k)
  }

  /** The id of the last header line, or null. */
  function Recent(lines: seq<string>, header: string): Option<string>
    decreases |lines|
  {
    if lines == [] then None
    else
      var line := lines[|lines| - 1];
      if Contains(line, header) && ExtractId(line, header).Ok? then Some(ExtractId(line, header).value)
      else Recent(lines[..|lines| - 1], header)
  }

  /** What one step does to the map: it adds the line's entry id, if any, mapped to the new
      running id, and keeps every other key as it was. */
  lemma AssociateLineTable(a: Association, line: string, header: string, entry: string, k: string)
    requires AssociateLine(a, line, header, entry).Ok?
    ensures var b := AssociateLine(a, line, header, entry).value;
      (Contains(line, entry) && ExtractId(line, entry) == Ok(k) ==> k in b.table && b.table[k] == b.current) &&
      (!(Contains(line, entry) && ExtractId(line, entry) == Ok(k)) ==>
        (k in b.table <==> k in a.table) && (k in a.table ==> b.table[k] == a.table[k]))
  {
  }

  /** Every key of the map comes from an entry line. */
  lemma {:induction false} KeyHasEntryLine(lines: seq<string>, header: string, entry: string, k: string)
    returns (i: nat)
    requires Associate(lines, header, entry).Ok?
    requires k in Associate(lines, header, entry).value.table
    ensures EntryAt(lines, i, entry, k)
    decreases |lines|
  {
    var n := |lines|;
    var init := lines[..n - 1];
    AssociateLineTable(Associate(init, header, entry).value, lines[n - 1], header, entry, k);
    if Contains(lines[n - 1], entry) && ExtractId(lines[n - 1], entry) == Ok(k) {
      i := n - 1;
    } else {
      i := KeyHasEntryLine(init, header, entry, k);
      assert init[i] == lines[i];
    }
  }

  /** Every entry line's id is a key of the map. */
  lemma {:induction false} EntryLineHasKey(lines: seq<string>, header: string, entry: string, k: string, i: nat)
    requires Associate(lines, header, entry).Ok?
    requires EntryAt(lines, i, entry, k)
    ensures k in Associate(lines, header, entry).value.table
    decreases |lines|
  {
    var n := |lines|;
    var init := lines[..n - 1];
    AssociateLineTable(Associate(init, header, entry).value, lines[n - 1], header, entry, k);
    if i < n - 1 {
      assert init[i] == lines[i];
      assert EntryAt(init, i, entry, k);
      EntryLineHasKey(init, header, entry, k, i);
    }
  }

  /** The map's keys are exactly the ids of the entry lines. */
  lemma AssociateKeys(lines: seq<string>, header: string, entry: string, k: string)
    requires Associate(lines, header, entry).Ok?
    ensures k in Associate(lines, header, entry).value.table <==> exists i :: EntryAt(lines, i, entry, k)
  {
    if k in Associate(lines, header, entry).value.table {
      var i := KeyHasEntryLine(lines, header, entry, k);
    }
    if exists i :: EntryAt(lines, i, entry, k) {
      var i :| EntryAt(lines, i, entry, k);
      EntryLineHasKey(lines, header, entry, k, i);
    }
  }

  /** An id is mapped to the header id in force at its last entry line: the most recent
      header at or before that line (null if none), and later lines for it overwrite
      earlier ones. */
  lemma {:induction false} AssociateValue(lines: seq<string>, header: string, entry: string, i: nat, k: string)
    requires Associate(lines, header, entry).Ok?
    requires EntryAt(lines, i, entry, k)
    requires forall j :: i < j < |lines| ==> !EntryAt(lines, j, entry, k)
    ensures k in Associate(lines, header, entry).value.table
    ensures Associate(lines, header, entry).value.table[k] == Recent(lines[..i + 1], header)
    decreases |lines|
  {
    var n := |lines|;
    var init := lines[..n - 1];
    var a := Associate(init, header, entry).value;
    var b := Associate(lines, header, entry).value;
    assert AssociateLine(a, lines[n - 1], header, entry) == Ok(b);
    AssociateLineTable(a, lines[n - 1], header, entry, k);
    if i == n - 1 {
      assert lines[..i + 1] == lines;
      assert b.current == Recent(lines, header);
    } else {
      assert init[i] == lines[i];
      assert EntryAt(init, i, entry, k);
      assert !EntryAt(lines, n - 1, entry, k);
      forall j | i < j < |init| ensures !EntryAt(init, j, entry, k) {
        assert init[j] == lines[j];
        assert !EntryAt(lines, j, entry, k);
      }
      AssociateValue(init, header, entry, i, k);
      assert init[..i + 1] == lines[..i + 1];
    }
  }

  // ---------------------------------------------------------------------------
  // The lookup chain

  /** `file.getAbsolutePath().substring(0, 2)` looked up in the partition map and the
      partition in the drive map; HashMap.get answers null for a missing key. */
  function PhysicalDrive(path: string, partitions: map<string, Option<string>>,
                         drives: map<string, Option<string>>): (r: Result<Option<string>>)
    ensures r.Thrown? <==> |path| < 2
    ensures r.Ok? && r.value.Some? ==>
      path[..2] in partitions && partitions[path[..2]].Some? &&
      partitions[path[..2]].value in drives && drives[partitions[path[..2]].value] == r.value
    ensures (|path| >= 2 && path[..2] in partitions && partitions[path[..2]].Some? &&
      partitions[path[..2]].value in drives) ==> r == Ok(drives[partitions[path[..2]].value])
    ensures (|path| >= 2 && !(path[..2] in partitions && partitions[path[..2]].Some? &&
      partitions[path[..2]].value in drives)) ==> r == Ok(None)
  {
    if |path| < 2 then Thrown
    else
      var partition := if path[..2] in partitions then partitions[path[..2]] else None;
      Ok(if partition.Some? && partition.value in drives then drives[partition.value] else None)
  }

  /** The query for a drive's PNP device id; a null drive is printed as "null". */
  function PnpCmd(drive: Option<string>): string
  {
    "wmic DiskDrive where \"DeviceID='" + Show(drive) + "'\" get PNPDeviceID"
  }

  /** The trimmed second line of the PNP query's output. */
  function PnpDeviceId(exec: Shell, drive: Option<string>): (r: Result<string>)
    ensures r.Ok? <==> exec(PnpCmd(drive)).Some? && |Split(Newline, exec(PnpCmd(drive)).value)| >= 2
    ensures r.Ok? ==> r.value == Trim(Split(Newline, exec(PnpCmd(drive)).value)[1])
  {
    match exec(PnpCmd(drive))
    case None => Thrown
    case Some(out) =>
      var lines := Split(Newline, out);
      if |lines| < 2 then Thrown else Ok(Trim(lines[1]))
  }

  // ---------------------------------------------------------------------------
  // The registry scan

  /** Some element contains `part`. */
  predicate Mentions(xs: seq<string>, part: string)
  {
    exists i :: 0 <= i < |xs| && Contains(xs[i], part)
  }

  /** `.filter(contains(part)).findFirst()`. */
  function FirstWith(xs: seq<string>, part: string): (r: Option<string>)
    ensures r.None? <==> !Mentions(xs, part)
    ensures r.Some? ==> exists i :: (0 <= i < |xs| && xs[i] == r.value && Contains(xs[i], part) &&
      forall j :: 0 <= j < i ==> !Contains(xs[j], part))
  {
    if xs == [] then None
    else if Contains(xs[0], part) then Some(xs[0])
    else
      var r := FirstWith(xs[1..], part);
      assert forall i :: 1 <= i < |xs| ==> xs[i] == xs[1..][i - 1];
      r
  }

  /** The values of key `g` can be read, mention the container `id`, and include `line`, a
      LocationInformation line. */
  predicate GrandchildYields(exec: Shell, g: string, id: string, line: string)
  {
    ReadLocation(exec, g).Some? && Mentions(ReadLocation(exec, g).value, id) &&
    line in ReadLocation(exec, g).value && Contains(line, LocationKey)
  }

  /** Some grandchild listed under key `c` yields `line`. */
  predicate ChildYields(exec: Shell, c: string, id: string, line: string)
  {
    ReadLocation(exec, c).Some? && exists g :: g in ReadLocation(exec, c).value && GrandchildYields(exec, g, id, line)
  }

  /** Some key of `keys` cannot be read. */
  predicate SomeUnreadable(exec: Shell, keys: seq<string>)
  {
    exists i :: 0 <= i < |keys| && ReadLocation(exec, keys[i]).None?
  }

  /** The pipeline from one child key on: read each grandchild's values (null throws) and,
      among those mentioning the container, take the first LocationInformation line. A line
      found is a LocationInformation line of a grandchild that mentions the container, and
      a failure comes from a grandchild that cannot be read. */
  function ScanGrandchildren(exec: Shell, keys: seq<string>, id: string): (r: Result<Option<string>>)
    ensures r.Ok? && r.value.Some? ==> exists g :: g in keys && GrandchildYields(exec, g, id, r.value.value)
    ensures r.Thrown? ==> SomeUnreadable(exec, keys)
  {
    if keys == [] then Ok(None)
    else
      assert forall i :: 0 <= i < |keys[1..]| ==> keys[1..][i] == keys[i + 1];
      assert forall g :: g in keys[1..] ==> g in keys;
      match ReadLocation(exec, keys[0])
      case None => Thrown
      case Some(values) =>
        if Mentions(values, id) && FirstWith(values, LocationKey).Some? then
          assert GrandchildYields(exec, keys[0], id, FirstWith(values, LocationKey).value);
          Ok(FirstWith(values, LocationKey))
        else ScanGrandchildren(exec, keys[1..], id)
  }

  /** The pipeline over the child keys of the USB enumeration key, child by child, stopping
      at the first line found (a null listing throws). A line found comes from a grandchild
      of one of the children that mentions the container, and a failure from a listing that
      cannot be read. */
  function ScanChildren(exec: Shell, keys: seq<string>, id: string): (r: Result<Option<string>>)
    ensures r.Ok? && r.value.Some? ==> exists c :: c in keys && ChildYields(exec, c, id, r.value.value)
    ensures r.Thrown? ==> (SomeUnreadable(exec, keys) ||
      exists c :: c in keys && ReadLocation(exec, c).Some? && SomeUnreadable(exec, ReadLocation(exec, c).value))
  {
    if keys == [] then Ok(None)
    else
      assert forall i :: 0 <= i < |keys[1..]| ==> keys[1..][i] == keys[i + 1];
      assert forall c :: c in keys[1..] ==> c in keys;
      match ReadLocation(exec, keys[0])
      case None => Thrown
      case Some(grandchildren) =>
        match ScanGrandchildren(exec, grandchildren, id)
        case Thrown => Thrown
        case Ok(Some(line)) =>
          assert ChildYields(exec, keys[0], id, line);
          Ok(Some(line))
        case Ok(None) => ScanChildren(exec, keys[1..], id)
  }

  // An eager description of the same scan, for when every listing can be read.

  predicate AllReadable(exec: Shell, keys: seq<string>)
  {
    forall i :: 0 <= i < |keys| ==> ReadLocation(exec, keys[i]).Some?
  }

  /** The listings of all `keys`, in order. */
  function Listings(exec: Shell, keys: seq<string>): (r: seq<seq<string>>)
    requires AllReadable(exec, keys)
    ensures |r| == |keys|
  {
    if keys == [] then [] else [ReadLocation(exec, keys[0]).value] + Listings(exec, keys[1..])
  }

  function Concat(xss: seq<seq<string>>): seq<string>
  {
    if xss == [] then [] else xss[0] + Concat(xss[1..])
  }

  /** The listings that mention `id`, in order. */
  function Mentioning(xss: seq<seq<string>>, id: string): seq<seq<string>>
  {
    if xss == [] then []
    else (if Mentions(xss[0], id) then [xss[0]] else []) + Mentioning(xss[1..], id)
  }

  /** The first LocationInformation line among all values of all grandchildren whose
      values mention the container. */
  function EagerScan(exec: Shell, children: seq<string>, id: string): Option<string>
    requires AllReadable(exec, children)
    requires AllReadable(exec, Concat(Listings(exec, children)))
  {
    FirstWith(Concat(Mentioning(Listings(exec, Concat(Listings(exec, children))), id)), LocationKey)
  }

  lemma {:induction false} FirstWithAppend(xs: seq<string>, ys: seq<string>, part: string)
    ensures FirstWith(xs + ys, part) == if FirstWith(xs, part).Some? then FirstWith(xs, part) else FirstWith(ys, part)
  {
    if xs != [] {
      assert (xs + ys)[0] == xs[0] && (xs + ys)[1..] == xs[1..] + ys;
      FirstWithAppend(xs[1..], ys, part);
    } else {
      assert xs + ys == ys;
    }
  }

  lemma {:induction false} ListingsAppend(exec: Shell, a: seq<string>, b: seq<string>)
    requires AllReadable(exec, a + b)
    ensures AllReadable(exec, a) && AllReadable(exec, b)
    ensures Listings(exec, a + b) == Listings(exec, a) + Listings(exec, b)
  {
    var ab := a + b;
    assert AllReadable(exec, b) by {
      forall i | 0 <= i < |b| ensures ReadLocation(exec, b[i]).Some? {
        assert b[i] == ab[|a| + i];
      }
    }
    if a == [] {
      assert ab == b;
    } else {
      assert ab[0] == a[0] && ab[1..] == a[1..] + b;
      assert AllReadable(exec, a[1..] + b) by {
        forall i | 0 <= i < |ab[1..]| ensures ReadLocation(exec, ab[1..][i]).Some? {
          assert ab[1..][i] == ab[i + 1];
        }
      }
      ListingsAppend(exec, a[1..], b);
      assert AllReadable(exec, a) by {
        forall i | 0 <= i < |a| ensures ReadLocation(exec, a[i]).Some? {
          assert a[i] == ab[i];
        }
      }
    }
  }

  lemma {:induction false} ConcatAppend(a: seq<seq<string>>, b: seq<seq<string>>)
    ensures Concat(a + b) == Concat(a) + Concat(b)
  {
    if a != [] {
      assert (a + b)[0] == a[0] && (a + b)[1..] == a[1..] + b;
      ConcatAppend(a[1..], b);
    } else {
      assert a + b == b;
    }
  }

  lemma {:induction false} MentioningAppend(a: seq<seq<string>>, b: seq<seq<string>>, id: string)
    ensures Mentioning(a + b, id) == Mentioning(a, id) + Mentioning(b, id)
  {
    if a != [] {
      assert (a + b)[0] == a[0] && (a + b)[1..] == a[1..] + b;
      MentioningAppend(a[1..], b, id);
    } else {
      assert a + b == b;
    }
  }

  /** The lazy scan of one child's grandchildren finds what the eager description finds. */
  lemma {:induction false} GrandchildrenAsEager(exec: Shell, keys: seq<string>, id: string)
    requires AllReadable(exec, keys)
    ensures ScanGrandchildren(exec, keys, id) ==
      Ok(FirstWith(Concat(Mentioning(Listings(exec, keys), id)), LocationKey))
  {
    if keys != [] {
      var values := ReadLocation(exec, keys[0]).value;
      var rest := keys[1..];
      assert AllReadable(exec, rest) by {
        assert forall i :: 0 <= i < |rest| ==> rest[i] == keys[i + 1];
      }
      GrandchildrenAsEager(exec, rest, id);
      var ls := Listings(exec, keys);
      assert ls == [values] + Listings(exec, rest);
      var head := if Mentions(values, id) then [values] else [];
      assert Mentioning(ls, id) == head + Mentioning(Listings(exec, rest), id) by {
        assert ls[0] == values && ls[1..] == Listings(exec, rest);
      }
      ConcatAppend(head, Mentioning(Listings(exec, rest), id));
      assert Concat(head) == if Mentions(values, id) then values else [] by {
        if Mentions(values, id) { assert Concat([values]) == values + Concat([]); }
      }
      FirstWithAppend(Concat(head), Concat(Mentioning(Listings(exec, rest), id)), LocationKey);
    }
  }

  /** Read lazily, child by child and grandchild by grandchild, the scan finds the first
      LocationInformation line among the values of the grandchildren that mention the
      container, when every listing can be read. */
  lemma {:induction false} ScanAsEager(exec: Shell, children: seq<string>, id: string)
    requires AllReadable(exec, children)
    requires AllReadable(exec, Concat(Listings(exec, children)))
    ensures ScanChildren(exec, children, id) == Ok(EagerScan(exec, children, id))
  {
    if children != [] {
      var rest := children[1..];
      var gs := ReadLocation(exec, children[0]).value;
      assert AllReadable(exec, rest) by {
        assert forall i :: 0 <= i < |rest| ==> rest[i] == children[i + 1];
      }
      var ls := Listings(exec, children);
      assert ls == [gs] + Listings(exec, rest);
      assert Concat(ls) == gs + Concat(Listings(exec, rest)) by {
        assert ls[0] == gs && ls[1..] == Listings(exec, rest);
      }
      var restGs := Concat(Listings(exec, rest));
      ListingsAppend(exec, gs, restGs);
      ScanAsEager(exec, rest, id);
      GrandchildrenAsEager(exec, gs, id);
      MentioningAppend(Listings(exec, gs), Listings(exec, restGs), id);
      ConcatAppend(Mentioning(Listings(exec, gs), id), Mentioning(Listings(exec, restGs), id));
      FirstWithAppend(Concat(Mentioning(Listings(exec, gs), id)), Concat(Mentioning(Listings(exec, restGs), id)), LocationKey);
    }
  }

  // ---------------------------------------------------------------------------
  // getDeviceUSBPortLocation

  /** The try block after both tables are built: drive letter, physical drive, PNP id,
      ContainerID (absent: ""), then the trimmed last field of the first LocationInformation
      line of the scan ("" when there is none). A path too short for a drive letter throws;
      a non-empty port is the last field of a LocationInformation line of a grandchild that
      mentions this drive's container. */
  function Resolve(path: string, partitions: map<string, Option<string>>,
                   drives: map<string, Option<string>>, exec: Shell): (r: Result<string>)
    ensures |path| < 2 ==> r == Thrown
    ensures r.Ok? ==> (PhysicalDrive(path, partitions, drives).Ok? &&
      PnpDeviceId(exec, PhysicalDrive(path, partitions, drives).value).Ok?)
    ensures r.Ok? && r.value != "" ==> (
      var id := ReadRegistry(exec, EnumPrefix + PnpDeviceId(exec, PhysicalDrive(path, partitions, drives).value).value, ContainerKey);
      id.Some? && ReadLocation(exec, RegistryLocation).Some? &&
      exists c, line :: c in ReadLocation(exec, RegistryLocation).value &&
        ChildYields(exec, c, id.value, line) && LastField(line) == Some(r.value))
  {
    match PhysicalDrive(path, partitions, drives)
    case Thrown => Thrown
    case Ok(drive) =>
      match PnpDeviceId(exec, drive)
      case Thrown => Thrown
      case Ok(pnp) =>
        match ReadRegistry(exec, EnumPrefix + pnp, ContainerKey)
        case None => Ok("")
        case Some(id) =>
          match ReadLocation(exec, RegistryLocation)
          case None => Thrown
          case Some(children) =>
            match ScanChildren(exec, children, id)
            case Thrown => Thrown
            case Ok(None) => Ok("")
            case Ok(Some(line)) =>
              match LastField(line)
              case None => Thrown
              case Some(v) => Ok(v)
  }

  /** What one call of getDeviceUSBPortLocation does on Windows: every failure, in either
      task or after, is a PortDetectionException, so nothing unchecked escapes. */
  function PortLocation(path: string, exec: Shell): (r: Outcome)
    ensures r != Unchecked
  {
    match (AssociationTable(exec(LogicalDisksCmd), PartitionMarker, LogicalDiskMarker),
           AssociationTable(exec(DrivesCmd), DriveMarker, PartitionMarker))
    case (Ok(partitions), Ok(drives)) =>
      (match Resolve(path, partitions, drives, exec)
       case Thrown => DetectionError
       case Ok(s) => Port(s))
    case _ => DetectionError
  }

  /** getDeviceUSBPortLocation(file): run both parser tasks, then the lookup chain. */
  method GetDeviceUSBPortLocation(path: string, exec: Shell) returns (r: Outcome)
    ensures r == PortLocation(path, exec)
  {
    var partitionTask := ParseAssociations(exec(LogicalDisksCmd), PartitionMarker, LogicalDiskMarker);
    var diskDrivesTask := ParseAssociations(exec(DrivesCmd), DriveMarker, PartitionMarker);
    if partitionTask.Thrown? || diskDrivesTask.Thrown? {
      return DetectionError;
    }
    var s := Resolve(path, partitionTask.value, diskDrivesTask.value, exec);
    r := if s.Thrown? then DetectionError else Port(s.value);
  }

  /** A device without a ContainerID value is recognised without a port, not an error. */
  lemma NoContainerNoPort(path: string, exec: Shell)
    requires AssociationTable(exec(LogicalDisksCmd), PartitionMarker, LogicalDiskMarker).Ok?
    requires AssociationTable(exec(DrivesCmd), DriveMarker, PartitionMarker).Ok?
    requires var drive := PhysicalDrive(path,
        AssociationTable(exec(LogicalDisksCmd), PartitionMarker, LogicalDiskMarker).value,
        AssociationTable(exec(DrivesCmd), DriveMarker, PartitionMarker).value);
      drive.Ok? && PnpDeviceId(exec, drive.value).Ok? &&
      ReadRegistry(exec, EnumPrefix + PnpDeviceId(exec, drive.value).value, ContainerKey).None?
    ensures PortLocation(path, exec) == Port("")
  {
  }

  /** With the container known and every registry listing readable, the port is the
      trimmed last field of the first LocationInformation line the eager description
      finds, and "" when it finds none. */
  lemma PortFromFirstLocationLine(path: string, exec: Shell, partitions: map<string, Option<string>>,
                                  drives: map<string, Option<string>>, id: string, children: seq<string>)
    requires AssociationTable(exec(LogicalDisksCmd), PartitionMarker, LogicalDiskMarker) == Ok(partitions)
    requires AssociationTable(exec(DrivesCmd), DriveMarker, PartitionMarker) == Ok(drives)
    requires var drive := PhysicalDrive(path, partitions, drives);
      drive.Ok? && PnpDeviceId(exec, drive.value).Ok? &&
      ReadRegistry(exec, EnumPrefix + PnpDeviceId(exec, drive.value).value, ContainerKey) == Some(id)
    requires ReadLocation(exec, RegistryLocation) == Some(children)
    requires AllReadable(exec, children) && AllReadable(exec, Concat(Listings(exec, children)))
    ensures EagerScan(exec, children, id).None? ==> PortLocation(path, exec) == Port("")
    ensures EagerScan(exec, children, id).Some? ==>
      PortLocation(path, exec) ==
        match LastField(EagerScan(exec, children, id).value)
        case None => DetectionError
        case Some(v) => Port(v)
  {
    ScanAsEager(exec, children, id);
    var found := EagerScan(exec, children, id);
    var port: Result<string> :=
      match found
      case None => Ok("")
      case Some(line) => (match LastField(line) case None => Thrown case Some(v) => Ok(v));
    assert Resolve(path, partitions, drives, exec) == port;
  }
}
