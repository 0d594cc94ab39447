/** PortDetector: the backend is chosen once from the lower-cased OS name and kept in a
    final static field; getInstance hands out that field. Also how each backend's failures
    reach UsbDetector.getPort. */
module Platform {
  import opened Base
  import opened JavaStrings
  import MacPorts
  import WindowsPorts
  import Detector

  datatype Backend = WindowsBackend | MacBackend

  /** The static initialiser: "win..." gives the Windows backend, then "mac..." the macOS
      one, and any other name leaves the instance null. In terms of the name as given: a
      name beginning with "win" in any mix of cases gives Windows; failing that, "mac" in any
      case gives macOS; anything else none. */
  function SelectBackend(osName: string): (r: Option<Backend>)
    ensures r == Some(WindowsBackend) <==> CasePrefix(osName, "win")
    ensures r == Some(MacBackend) <==> !CasePrefix(osName, "win") && CasePrefix(osName, "mac")
    ensures r.None? <==> !CasePrefix(osName, "win") && !CasePrefix(osName, "mac")
  {
    LowerPrefix(osName, "win");
    LowerPrefix(osName, "mac");
    var name := ToLower(osName);
    if StartsWith(name, "win") then Some(WindowsBackend)
    else if StartsWith(name, "mac") then Some(MacBackend)
    else None
  }

  /** The first three characters of `s` are those of `lower` in either case. */
  predicate CasePrefix(s: string, lower: string)
    requires |lower| == 3
  {
    |s| >= 3 && forall i :: 0 <= i < 3 ==> s[i] == lower[i] || s[i] as int == lower[i] as int - 32
  }

  lemma LowerPrefix(s: string, lower: string)
    requires |lower| == 3 && forall i :: 0 <= i < 3 ==> 'a' <= lower[i] <= 'z'
    ensures StartsWith(ToLower(s), lower) <==> CasePrefix(s, lower)
  {
    var t := ToLower(s);
    if StartsWith(t, lower) {
      forall i | 0 <= i < 3 ensures s[i] == lower[i] || s[i] as int == lower[i] as int - 32 {
        assert t[..3][i] == t[i];
      }
    }
    if CasePrefix(s, lower) {
      assert t[..3] == lower by {
        forall i | 0 <= i < 3 ensures t[..3][i] == lower[i] {
          assert t[..3][i] == t[i];
        }
      }
    }
  }

  /** Lower-casing twice changes nothing. */
  lemma {:induction false} ToLowerIdempotent(s: string)
    ensures ToLower(ToLower(s)) == ToLower(s)
  {
    var t := ToLower(s);
    forall i | 0 <= i < |s| ensures ToLower(t)[i] == t[i] {
      assert !('A' <= t[i] <= 'Z');
    }
  }

  /** The choice ignores case: an already lower-cased name selects the same backend. */
  lemma SelectIgnoresCase(osName: string)
    ensures SelectBackend(ToLower(osName)) == SelectBackend(osName)
  {
    ToLowerIdempotent(osName);
  }

  /** One call of `portDetector.getDeviceUSBPortLocation(file)` with the command runner of
      that moment; a null instance fails with a NullPointerException. */
  function Attempt(backend: Option<Backend>, path: string, exec: Shell, parse: MacPorts.Parser): (r: Outcome)
    ensures backend.None? ==> r == Unchecked
    ensures backend == Some(MacBackend) ==> r != DetectionError
    ensures backend == Some(WindowsBackend) ==> r != Unchecked
  {
    match backend
    case None => Unchecked
    case Some(WindowsBackend) => WindowsPorts.PortLocation(path, exec)
    case Some(MacBackend) => MacPorts.GetDeviceUSBPortLocation(path, exec, parse)
  }

  /** The resolver getPort sees: attempt `k` runs its commands through `hosts(k)`, since
      the system may answer differently on each retry. */
  function Resolver(osName: string, path: string, hosts: nat -> Shell, parse: MacPorts.Parser): nat -> Outcome
  {
    (k: nat) => Attempt(SelectBackend(osName), path, hosts(k), parse)
  }

  /** On macOS getPort never retries: IllegalStateException is not a PortDetectionException,
      so the first attempt either returns or escapes. */
  lemma MacNeverRetries(osName: string, path: string, hosts: nat -> Shell, parse: MacPorts.Parser,
                        lookup: Detector.PortLookup, calls: nat)
    requires SelectBackend(osName) == Some(MacBackend)
    requires Detector.IsPortLookup(Resolver(osName, path, hosts, parse), lookup, calls)
    ensures calls == 1 && !lookup.NotFound?
  {
    var resolve := Resolver(osName, path, hosts, parse);
    forall k: nat ensures resolve(k) != DetectionError {
      assert resolve(k) == Attempt(Some(MacBackend), path, hosts(k), parse);
    }
    Detector.NoRetryWithoutDetectionError(resolve, lookup, calls);
  }

  /** On an unsupported system the first attempt fails outside getPort's catch. */
  lemma UnsupportedEscapes(osName: string, path: string, hosts: nat -> Shell, parse: MacPorts.Parser,
                           lookup: Detector.PortLookup, calls: nat)
    requires SelectBackend(osName).None?
    requires Detector.IsPortLookup(Resolver(osName, path, hosts, parse), lookup, calls)
    ensures calls == 1 && lookup == Detector.Escaped
  {
    var resolve := Resolver(osName, path, hosts, parse);
    assert resolve(0) == Attempt(None, path, hosts(0), parse);
  }

  /** On Windows every failure is retried and nothing escapes getPort. */
  lemma WindowsNeverEscapes(osName: string, path: string, hosts: nat -> Shell, parse: MacPorts.Parser,
                            lookup: Detector.PortLookup, calls: nat)
    requires SelectBackend(osName) == Some(WindowsBackend)
    requires Detector.IsPortLookup(Resolver(osName, path, hosts, parse), lookup, calls)
    ensures lookup != Detector.Escaped
  {
    var resolve := Resolver(osName, path, hosts, parse);
    var last: nat := calls - 1;
    assert resolve(last) == Attempt(Some(WindowsBackend), path, hosts(last), parse);
  }
}
