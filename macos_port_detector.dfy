/** OSXPortDetector: the search of system_profiler's USB device tree for the device one of
    whose volumes is mounted at a given root, with diskutil consulted for media that list no
    volumes. The command runner and the property-list parser are oracles. */
module MacPorts {
  import opened Base
  import opened JavaStrings

  /** A parsed property list: NSDictionary, NSArray, NSString, or any other NSObject. */
  datatype Node = Dict(entries: map<string, Node>) | Arr(items: seq<Node>) | Str(content: string) | Other

  /** PropertyListParser.parse on the bytes of a document: the tree, or None when it throws. */
  type Parser = string -> Option<Node>

  const ProfilerCmd := "system_profiler SPUSBDataType -xml"
  const DiskUtilCmd := "diskutil info"
  const DeviceDir := "/dev/"
  const MountPointKey := "Mount Point"

  /** One element of a scan: Ok(Some(s)) returns s from traverseItems, Ok(None) goes on
      with the next element, Thrown is an exception leaving the search. */
  type Step = Result<Option<string>>

  /** `((NSString) dict.get(key)).getContent()`: a NullPointerException when the key is
      absent, a ClassCastException when its value is not a string. */
  function StringEntry(d: map<string, Node>, key: string): Result<string>
  {
    if key in d && d[key].Str? then Ok(d[key].content) else Thrown
  }

  /** `location_id.split("/")[0]` of a device. */
  function LocationPrefix(device: map<string, Node>): (r: Result<string>)
    ensures r.Ok? <==> ("location_id" in device && device["location_id"].Str? &&
      !(device["location_id"].content != "" &&
        forall k :: 0 <= k < |device["location_id"].content| ==> device["location_id"].content[k] == '/'))
    ensures r.Ok? ==> var loc := device["location_id"].content;
      r.value == if '/' in loc then loc[..IndexOf(loc, '/')] else loc
  {
    match StringEntry(device, "location_id")
    case Thrown => Thrown
    case Ok(loc) =>
      SplitFirstField('/', loc);
      var parts := Split(CharSep('/'), loc);
      if parts == [] then Thrown else Ok(parts[0])
  }

  /** The result of `return <location>` inside a loop. */
  function Returning(r: Result<string>): Step
  {
    match r
    case Thrown => Thrown
    case Ok(s) => Ok(Some(s))
  }

  // ---------------------------------------------------------------------------
  // findMountPointByDevice

  /** The stream over diskutil's lines: split each on ':', keep those whose first field trims
      to "Mount Point", and take the trimmed second field of the first. `parts[0]` throws
      on a line made only of ':', `parts[1]` on a matching line without a second field. */
  function MountPointLine(lines: seq<string>): (r: Result<string>)
    ensures r.Ok? && r.value != "" ==> exists j :: (0 <= j < |lines| &&
      |Split(CharSep(':'), lines[j])| >= 2 && Trim(Split(CharSep(':'), lines[j])[0]) == MountPointKey &&
      r.value == Trim(Split(CharSep(':'), lines[j])[1]))
  {
    if lines == [] then Ok("")
    else
      var parts := Split(CharSep(':'), lines[0]);
      if parts == [] then Thrown
      else if Trim(parts[0]) == MountPointKey then
        if |parts| < 2 then Thrown else Ok(Trim(parts[1]))
      else
        var r := MountPointLine(lines[1..]);
        assert r.Ok? && r.value != "" ==> exists j :: 1 <= j < |lines| && lines[j] == lines[1..][j - 1];
        r
  }

  /** findMountPointByDevice(deviceName): the mount point diskutil reports for a device,
      or "" when diskutil fails or prints nothing but white space. */
  function FindMountPointByDevice(exec: Shell, deviceName: string): (r: Result<string>)
    ensures exec(DiskUtilCmd + " " + deviceName).None? ==> r == Ok("")
    ensures exec(DiskUtilCmd + " " + deviceName).Some? && IsBlank(exec(DiskUtilCmd + " " + deviceName).value) ==> r == Ok("")
  {
    var out := exec(DiskUtilCmd + " " + deviceName);
    if out.None? || IsBlank(out.value) then Ok("")
    else MountPointLine(Split(Newline, out.value))
  }

  /** A line that the stream filters out: it has a first field, not keyed "Mount Point". */
  predicate PassedOver(line: string)
  {
    var parts := Split(CharSep(':'), line);
    parts != [] && Trim(parts[0]) != MountPointKey
  }

  /** The first line keyed "Mount Point" decides the result, later lines are not read. */
  lemma {:induction false} FirstMountPointLine(lines: seq<string>, i: nat)
    requires i < |lines|
    requires forall j :: 0 <= j < i ==> PassedOver(lines[j])
    requires Split(CharSep(':'), lines[i]) != [] && Trim(Split(CharSep(':'), lines[i])[0]) == MountPointKey
    ensures MountPointLine(lines) ==
      if |Split(CharSep(':'), lines[i])| >= 2 then Ok(Trim(Split(CharSep(':'), lines[i])[1])) else Thrown
  {
    if i > 0 {
      assert PassedOver(lines[0]);
      FirstMountPointLine(lines[1..], i - 1);
    }
  }

  /** Without a "Mount Point" line the answer is "". */
  lemma {:induction false} NoMountPointLine(lines: seq<string>)
    requires forall j :: 0 <= j < |lines| ==> PassedOver(lines[j])
    ensures MountPointLine(lines) == Ok("")
  {
    if lines != [] {
      assert PassedOver(lines[0]);
      NoMountPointLine(lines[1..]);
    }
  }

  // ---------------------------------------------------------------------------
  // What a match is, independently of the order of the search

  /** A media entry refers to `root`: one of its volumes is mounted there, or it lists no
      volumes and diskutil reports its BSD device mounted there. */
  predicate MediaHit(m: Node, root: string, exec: Shell)
  {
    m.Dict? &&
    if "volumes" in m.entries then
      m.entries["volumes"].Arr? &&
      exists j :: 0 <= j < |m.entries["volumes"].items| &&
        VolumeAt(m.entries["volumes"].items[j], root)
    else
      "bsd_name" in m.entries && m.entries["bsd_name"].Str? &&
      FindMountPointByDevice(exec, DeviceDir + m.entries["bsd_name"].content) == Ok(root)
  }

  /** A volume dictionary whose "mount_point" is `root`. */
  predicate VolumeAt(v: Node, root: string)
  {
    v.Dict? && "mount_point" in v.entries && v.entries["mount_point"] == Str(root)
  }

  /** A volume the loop passes over: a dictionary with no "mount_point", or a string one
      other than `root`. */
  predicate VolumePassed(v: Node, root: string)
  {
    v.Dict? && ("mount_point" !in v.entries ||
      (v.entries["mount_point"].Str? && v.entries["mount_point"].content != root))
  }

  /** A media entry the loop passes over: not a dictionary; or its volumes are all passed
      over; or it has no volumes and diskutil reports its device mounted somewhere else. */
  predicate MediaPassed(m: Node, root: string, exec: Shell)
  {
    !m.Dict? ||
    if "volumes" in m.entries then
      m.entries["volumes"].Arr? &&
      forall j :: 0 <= j < |m.entries["volumes"].items| ==> VolumePassed(m.entries["volumes"].items[j], root)
    else
      "bsd_name" in m.entries && m.entries["bsd_name"].Str? &&
      FindMountPointByDevice(exec, DeviceDir + m.entries["bsd_name"].content).Ok? &&
      FindMountPointByDevice(exec, DeviceDir + m.entries["bsd_name"].content).value != root
  }

  /** `vols[j]` is mounted at `root` and every volume before it is passed over. */
  predicate FirstVolumeAt(vols: seq<Node>, root: string, j: nat)
  {
    j < |vols| && VolumeAt(vols[j], root) && forall i :: 0 <= i < j ==> VolumePassed(vols[i], root)
  }

  /** A media entry on which the loop returns: its first volume that is not passed over is
      mounted at `root`, or it has no volumes and diskutil reports its device at `root`. */
  predicate MediaFound(m: Node, root: string, exec: Shell)
  {
    m.Dict? &&
    if "volumes" in m.entries then
      m.entries["volumes"].Arr? && exists j: nat :: j < |m.entries["volumes"].items| && FirstVolumeAt(m.entries["volumes"].items, root, j)
    else
      "bsd_name" in m.entries && m.entries["bsd_name"].Str? &&
      FindMountPointByDevice(exec, DeviceDir + m.entries["bsd_name"].content) == Ok(root)
  }

  /** Some media entry of the device refers to `root`. */
  predicate DeviceMediaHit(d: map<string, Node>, root: string, exec: Shell)
  {
    "Media" in d && d["Media"].Arr? &&
    exists k :: 0 <= k < |d["Media"].items| && MediaHit(d["Media"].items[k], root, exec)
  }

  /** Some device at or below `n` has media referring to `root`. */
  predicate Matches(n: Node, root: string, exec: Shell)
    decreases n
  {
    n.Dict? &&
    (DeviceMediaHit(n.entries, root, exec) ||
     ("_items" in n.entries && n.entries["_items"].Arr? &&
      exists i :: 0 <= i < |n.entries["_items"].items| && Matches(n.entries["_items"].items[i], root, exec)))
  }

  /** Some device at or below `n` has media referring to `root` and location prefix `s`. */
  predicate Yields(n: Node, root: string, exec: Shell, s: string)
    decreases n
  {
    n.Dict? &&
    ((DeviceMediaHit(n.entries, root, exec) && LocationPrefix(n.entries) == Ok(s)) ||
     ("_items" in n.entries && n.entries["_items"].Arr? &&
      exists i :: 0 <= i < |n.entries["_items"].items| && Yields(n.entries["_items"].items[i], root, exec, s)))
  }

  // ---------------------------------------------------------------------------
  // traverseItems

  /** The loop over a media entry's "volumes": every element is cast to NSDictionary, and the
      first whose "mount_point" (cast to NSString) equals `root` returns the location. */
  function ScanVolumes(device: map<string, Node>, vols: seq<Node>, root: string): (r: Step)
    ensures r.Ok? && r.value.Some? ==>
      LocationPrefix(device) == Ok(r.value.value) && exists j :: 0 <= j < |vols| && VolumeAt(vols[j], root)
    ensures r == Ok(None) <==> forall j :: 0 <= j < |vols| ==> VolumePassed(vols[j], root)
  {
    if vols == [] then Ok(None)
    else if !vols[0].Dict? then Thrown
    else
      var v := vols[0].entries;
      if "mount_point" in v && !v["mount_point"].Str? then Thrown
      else if "mount_point" in v && v["mount_point"].content == root then
        assert VolumeAt(vols[0], root);
        Returning(LocationPrefix(device))
      else
        var r := ScanVolumes(device, vols[1..], root);
        assert forall j :: 1 <= j < |vols| ==> vols[j] == vols[1..][j - 1];
        r
  }

  /** The loop over a device's "Media": entries that are not dictionaries are skipped; one
      with "volumes" is searched by volume, one without by diskutil on /dev/<bsd_name>. */
  function ScanMedia(device: map<string, Node>, media: seq<Node>, root: string, exec: Shell): (r: Step)
    ensures r.Ok? && r.value.Some? ==>
      LocationPrefix(device) == Ok(r.value.value) && exists k :: 0 <= k < |media| && MediaHit(media[k], root, exec)
    ensures r == Ok(None) <==> forall k :: 0 <= k < |media| ==> MediaPassed(media[k], root, exec)
  {
    if media == [] then Ok(None)
    else
      var step := MediaStep(device, media[0], root, exec);
      assert forall k :: 1 <= k < |media| ==> media[k] == media[1..][k - 1];
      if step == Ok(None) then ScanMedia(device, media[1..], root, exec) else step
  }

  /** One element of the "Media" loop. */
  function MediaStep(device: map<string, Node>, m: Node, root: string, exec: Shell): (r: Step)
    ensures r.Ok? && r.value.Some? ==> LocationPrefix(device) == Ok(r.value.value) && MediaHit(m, root, exec)
    ensures r == Ok(None) <==> MediaPassed(m, root, exec)
  {
    if !m.Dict? then Ok(None)
    else if "volumes" in m.entries then
      if m.entries["volumes"].Arr? then ScanVolumes(device, m.entries["volumes"].items, root) else Thrown
    else
      match StringEntry(m.entries, "bsd_name")
      case Thrown => Thrown
      case Ok(bsd) =>
        match FindMountPointByDevice(exec, DeviceDir + bsd)
        case Thrown => Thrown
        case Ok(mountPoint) => if mountPoint == root then Returning(LocationPrefix(device)) else Ok(None)
  }

  /** The body of traverseItems' loop for one element: a dictionary's "Media" first, then
      its "_items", whose search goes on past a "" answer; anything else is skipped. */
  function Device(n: Node, root: string, exec: Shell): (r: Step)
    ensures r.Ok? && r.value.Some? && r.value.value != "" ==> Yields(n, root, exec, r.value.value)
    ensures n.Dict? && DeviceMediaHit(n.entries, root, exec) ==> r == Thrown || r == Returning(LocationPrefix(n.entries))
    decreases n, 1
  {
    if !n.Dict? then Ok(None)
    else
      var d := n.entries;
      var media :=
        if "Media" !in d then Ok(None)
        else if d["Media"].Arr? then ScanMedia(d, d["Media"].items, root, exec)
        else Thrown;
      assert DeviceMediaHit(d, root, exec) ==> media == Thrown || media == Returning(LocationPrefix(d)) by {
        if DeviceMediaHit(d, root, exec) { MediaHitDecides(d, root, exec); }
      }
      if media != Ok(None) then media
      else if "_items" !in d then Ok(None)
      else if !d["_items"].Arr? then Thrown
      else
        match Traverse(d["_items"].items, root, exec)
        case Thrown => Thrown
        case Ok(s) => if s != "" then Ok(Some(s)) else Ok(None)
  }

  /** A medium that refers to the root is not passed over. */
  lemma MediaHitNotPassed(m: Node, root: string, exec: Shell)
    requires MediaHit(m, root, exec)
    ensures !MediaPassed(m, root, exec)
  {
    if "volumes" in m.entries {
      var vols := m.entries["volumes"].items;
      var j :| 0 <= j < |vols| && VolumeAt(vols[j], root);
      assert !VolumePassed(vols[j], root);
    }
  }

  /** The media loop of a device whose media refer to the root throws or answers the
      device's location. */
  lemma MediaHitDecides(d: map<string, Node>, root: string, exec: Shell)
    requires DeviceMediaHit(d, root, exec)
    ensures ScanMedia(d, d["Media"].items, root, exec) == Thrown ||
      ScanMedia(d, d["Media"].items, root, exec) == Returning(LocationPrefix(d))
  {
    var media := d["Media"].items;
    var k :| 0 <= k < |media| && MediaHit(media[k], root, exec);
    MediaHitNotPassed(media[k], root, exec);
  }

  /** traverseItems(items, root): the location prefix of the first device, in pre-order,
      with media referring to `root`, or "". A non-empty answer is such a location. */
  function Traverse(items: seq<Node>, root: string, exec: Shell): (r: Result<string>)
    ensures r.Ok? && r.value != "" ==> exists i :: 0 <= i < |items| && Yields(items[i], root, exec, r.value)
    decreases items, 0
  {
    if items == [] then Ok("")
    else
      assert forall i :: 1 <= i < |items| ==> items[i] == items[1..][i - 1];
      match Device(items[0], root, exec)
      case Thrown => Thrown
      case Ok(Some(s)) => Ok(s)
      case Ok(None) => Traverse(items[1..], root, exec)
  }

  /** Every value the search can return is a device's location prefix for a match. */
  lemma {:induction false} YieldsMatches(n: Node, root: string, exec: Shell, s: string)
    requires Yields(n, root, exec, s)
    ensures Matches(n, root, exec)
    decreases n
  {
    if !(DeviceMediaHit(n.entries, root, exec) && LocationPrefix(n.entries) == Ok(s)) {
      var xs := n.entries["_items"].items;
      var i :| 0 <= i < |xs| && Yields(xs[i], root, exec, s);
      YieldsMatches(xs[i], root, exec, s);
    }
  }

  /** When nothing in the tree refers to `root` the search answers "" (or throws). */
  lemma NoMatchNoLocation(items: seq<Node>, root: string, exec: Shell)
    requires forall i :: 0 <= i < |items| ==> !Matches(items[i], root, exec)
    ensures Traverse(items, root, exec) == Ok("") || Traverse(items, root, exec) == Thrown
  {
    var r := Traverse(items, root, exec);
    if r.Ok? && r.value != "" {
      var i :| 0 <= i < |items| && Yields(items[i], root, exec, r.value);
      YieldsMatches(items[i], root, exec, r.value);
    }
  }

  /** Earlier elements are searched first: the first element that does not let the loop go
      on decides the answer, whatever follows it. */
  lemma {:induction false} FirstDecidingElement(items: seq<Node>, root: string, exec: Shell, i: nat)
    requires i < |items|
    requires forall j :: 0 <= j < i ==> Device(items[j], root, exec) == Ok(None)
    requires Device(items[i], root, exec) != Ok(None)
    ensures Traverse(items, root, exec) ==
      match Device(items[i], root, exec)
      case Thrown => Thrown
      case Ok(s) => Ok(s.value)
  {
    if i > 0 {
      assert Device(items[0], root, exec) == Ok(None);
      FirstDecidingElement(items[1..], root, exec, i - 1);
    }
  }

  /** Only dictionaries take part in the search: dropping every other element of the array
      leaves the answer unchanged. */
  lemma {:induction false} NonDictionariesSkipped(items: seq<Node>, root: string, exec: Shell)
    ensures Traverse(items, root, exec) == Traverse(Dictionaries(items), root, exec)
  {
    if items != [] {
      NonDictionariesSkipped(items[1..], root, exec);
      if items[0].Dict? {
        assert Dictionaries(items) == [items[0]] + Dictionaries(items[1..]);
        assert Dictionaries(items)[1..] == Dictionaries(items[1..]);
      }
    }
  }

  /** The dictionary elements of an array, in order. */
  function Dictionaries(items: seq<Node>): (r: seq<Node>)
    ensures forall i :: 0 <= i < |r| ==> r[i].Dict?
    ensures |r| <= |items|
  {
    if items == [] then []
    else if items[0].Dict? then [items[0]] + Dictionaries(items[1..])
    else Dictionaries(items[1..])
  }

  /** The scan of a device's media sees only its location, not its other keys. */
  lemma {:induction false} ScanMediaLocationOnly(d1: map<string, Node>, d2: map<string, Node>,
                                                  media: seq<Node>, root: string, exec: Shell)
    requires LocationPrefix(d1) == LocationPrefix(d2)
    ensures ScanMedia(d1, media, root, exec) == ScanMedia(d2, media, root, exec)
  {
    if media != [] {
      ScanMediaLocationOnly(d1, d2, media[1..], root, exec);
      var m := media[0];
      if m.Dict? && "volumes" in m.entries && m.entries["volumes"].Arr? {
        ScanVolumesLocationOnly(d1, d2, m.entries["volumes"].items, root);
      }
    }
  }

  lemma {:induction false} ScanVolumesLocationOnly(d1: map<string, Node>, d2: map<string, Node>,
                                                    vols: seq<Node>, root: string)
    requires LocationPrefix(d1) == LocationPrefix(d2)
    ensures ScanVolumes(d1, vols, root) == ScanVolumes(d2, vols, root)
  {
    if vols != [] { ScanVolumesLocationOnly(d1, d2, vols[1..], root); }
  }

  /** "Media" is searched before "_items": once the media answer, the children are not
      looked at, so replacing them changes nothing. */
  lemma MediaBeforeItems(d: map<string, Node>, children: Node, root: string, exec: Shell)
    requires "Media" in d && d["Media"].Arr?
    requires ScanMedia(d, d["Media"].items, root, exec) != Ok(None)
    ensures Device(Dict(d["_items" := children]), root, exec) == Device(Dict(d), root, exec)
  {
    var d2 := d["_items" := children];
    assert d2["Media"] == d["Media"] && StringEntry(d2, "location_id") == StringEntry(d, "location_id");
    ScanMediaLocationOnly(d2, d, d["Media"].items, root, exec);
  }

  /** The volume loop returns the device's location at the first volume mounted at `root`
      when every volume before it is passed over. */
  lemma {:induction false} ScanVolumesFound(device: map<string, Node>, vols: seq<Node>, root: string, j: nat)
    requires FirstVolumeAt(vols, root, j)
    ensures ScanVolumes(device, vols, root) == Returning(LocationPrefix(device))
  {
    if j > 0 {
      assert VolumePassed(vols[0], root);
      assert FirstVolumeAt(vols[1..], root, j - 1) by {
        forall i | 0 <= i < j - 1 ensures VolumePassed(vols[1..][i], root) {
          assert vols[1..][i] == vols[i + 1];
        }
      }
      ScanVolumesFound(device, vols[1..], root, j - 1);
    }
  }

  /** A media entry on which the loop returns gives the device's location. */
  lemma MediaStepFound(device: map<string, Node>, m: Node, root: string, exec: Shell)
    requires MediaFound(m, root, exec)
    ensures MediaStep(device, m, root, exec) == Returning(LocationPrefix(device))
  {
    if "volumes" in m.entries {
      var vols := m.entries["volumes"].items;
      var j: nat :| j < |vols| && FirstVolumeAt(vols, root, j);
      ScanVolumesFound(device, vols, root, j);
    }
  }

  /** The media loop returns the device's location at the first media entry on which it
      returns, when every entry before it is passed over. */
  lemma {:induction false} ScanMediaFound(device: map<string, Node>, media: seq<Node>, root: string, exec: Shell, k: nat)
    requires k < |media| && MediaFound(media[k], root, exec)
    requires forall i :: 0 <= i < k ==> MediaPassed(media[i], root, exec)
    ensures ScanMedia(device, media, root, exec) == Returning(LocationPrefix(device))
  {
    if k == 0 {
      MediaStepFound(device, media[0], root, exec);
    } else {
      assert MediaPassed(media[0], root, exec);
      forall i | 0 <= i < k - 1 ensures MediaPassed(media[1..][i], root, exec) {
        assert media[1..][i] == media[i + 1];
      }
      ScanMediaFound(device, media[1..], root, exec, k - 1);
    }
  }

  /** A device whose media search returns answers its own location, before `_items`. */
  lemma DeviceMediaFound(d: map<string, Node>, root: string, exec: Shell, k: nat)
    requires "Media" in d && d["Media"].Arr? && k < |d["Media"].items|
    requires forall i :: 0 <= i < k ==> MediaPassed(d["Media"].items[i], root, exec)
    requires MediaFound(d["Media"].items[k], root, exec)
    ensures Device(Dict(d), root, exec) == Returning(LocationPrefix(d))
  {
    ScanMediaFound(d, d["Media"].items, root, exec, k);
  }

  /** The device has no "Media", or every entry of it is passed over. */
  predicate MediaAllPassed(d: map<string, Node>, root: string, exec: Shell)
  {
    "Media" !in d ||
    (d["Media"].Arr? && forall k :: 0 <= k < |d["Media"].items| ==> MediaPassed(d["Media"].items[k], root, exec))
  }

  /** When a device lets the loop go on: its media are all passed over and its `_items`, if
      any, answer ""; a non-empty answer of `_items` after passed-over media is returned. */
  lemma DevicePasses(d: map<string, Node>, root: string, exec: Shell)
    ensures Device(Dict(d), root, exec) == Ok(None) <==> (MediaAllPassed(d, root, exec) &&
      ("_items" !in d || (d["_items"].Arr? && Traverse(d["_items"].items, root, exec) == Ok(""))))
    ensures MediaAllPassed(d, root, exec) && "_items" in d && d["_items"].Arr? ==>
      (Traverse(d["_items"].items, root, exec).Ok? && Traverse(d["_items"].items, root, exec).value != "" ==>
       Device(Dict(d), root, exec) == Ok(Some(Traverse(d["_items"].items, root, exec).value)))
  {
  }

  /** End to end: when every element before `items[i]` lets the loop go on and the media
      search of device `items[i]` returns at entry `k`, the answer is that device's
      location_id up to its first '/' (or the exception reading it throws). */
  lemma MountedVolumeGivesLocation(items: seq<Node>, i: nat, k: nat, root: string, exec: Shell)
    requires i < |items| && items[i].Dict?
    requires forall j :: 0 <= j < i ==> Device(items[j], root, exec) == Ok(None)
    requires var d := items[i].entries;
      "Media" in d && d["Media"].Arr? && k < |d["Media"].items| &&
      (forall m :: 0 <= m < k ==> MediaPassed(d["Media"].items[m], root, exec)) &&
      MediaFound(d["Media"].items[k], root, exec)
    ensures Traverse(items, root, exec) == LocationPrefix(items[i].entries)
  {
    var d := items[i].entries;
    DeviceMediaFound(d, root, exec, k);
    assert items[i] == Dict(d);
    FirstDecidingElement(items, root, exec, i);
  }

  /** A device whose media are passed over and whose children answer "" lets the search go
      on with its next sibling. */
  lemma EmptyChildContinues(d: map<string, Node>, kids: seq<Node>, rest: seq<Node>, root: string, exec: Shell)
    requires MediaAllPassed(d, root, exec) && "_items" in d && d["_items"] == Arr(kids)
    requires Traverse(kids, root, exec) == Ok("")
    ensures Traverse([Dict(d)] + rest, root, exec) == Traverse(rest, root, exec)
  {
    DevicePasses(d, root, exec);
    assert ([Dict(d)] + rest)[0] == Dict(d) && ([Dict(d)] + rest)[1..] == rest;
  }

  // ---------------------------------------------------------------------------
  // findDeviceLocation and getDeviceUSBPortLocation

  /** findDeviceLocation(root, plistXml): parse the profiler's output (a null text throws
      on getBytes, a root that is not an array on the cast) and search it; a non-blank
      answer is trimmed, a blank one returned as it is. */
  function FindDeviceLocation(root: string, plistXml: Option<string>, parse: Parser, exec: Shell): (r: Result<string>)
    ensures r.Ok? <==> (plistXml.Some? && parse(plistXml.value).Some? && parse(plistXml.value).value.Arr? &&
      Traverse(parse(plistXml.value).value.items, root, exec).Ok?)
    ensures r.Ok? ==> var t := Traverse(parse(plistXml.value).value.items, root, exec).value;
      r.value == if IsBlank(t) then t else Trim(t)
    ensures r.Ok? && !IsBlank(r.value) ==> Trim(r.value) == r.value
    ensures r.Ok? && r.value != "" ==> var items := parse(plistXml.value).value.items;
      exists i, s :: 0 <= i < |items| && Yields(items[i], root, exec, s) && r.value == if IsBlank(s) then s else Trim(s)
  {
    if plistXml.None? then Thrown
    else match parse(plistXml.value)
      case None => Thrown
      case Some(tree) =>
        if !tree.Arr? then Thrown
        else match Traverse(tree.items, root, exec)
          case Thrown => Thrown
          case Ok(s) =>
            TrimIdempotent(s);
            Ok(if IsBlank(s) then s else Trim(s))
  }

  /** getDeviceUSBPortLocation(file): every failure of the macOS backend is unchecked (the
      parser's checked exceptions are wrapped in IllegalStateException, a null output gives
      a NullPointerException, a malformed tree a ClassCastException), so it never throws the
      PortDetectionException that getPort retries; a "" answer is returned unchanged. */
  function GetDeviceUSBPortLocation(root: string, exec: Shell, parse: Parser): (r: Outcome)
    ensures r != DetectionError
    ensures r == Unchecked <==> FindDeviceLocation(root, exec(ProfilerCmd), parse, exec) == Thrown
    ensures r.Port? ==> Ok(r.port) == FindDeviceLocation(root, exec(ProfilerCmd), parse, exec)
  {
    match FindDeviceLocation(root, exec(ProfilerCmd), parse, exec)
    case Thrown => Unchecked
    case Ok(s) => Port(s)
  }
}
