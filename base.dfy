/** Value types shared by every part of the detector model. */
module Base {

  /** A Java reference that may be null. */
  datatype Option<+T> = None | Some(value: T)

  /** The result of a Java computation that either returns a value or throws. Which exception
      was thrown is recorded only where a caller distinguishes exceptions (see Outcome). */
  datatype Result<+T> = Ok(value: T) | Thrown

  /** What one call of PortDetector.getDeviceUSBPortLocation does, seen from its caller:
      it returns a port string (possibly empty), throws the checked PortDetectionException,
      or throws an unchecked exception (IllegalStateException, NullPointerException,
      ClassCastException, ...), which no caller in the core catches. */
  datatype Outcome = Port(port: string) | DetectionError | Unchecked

  /** ExecCommand.exec: the captured standard output of a command line, or null when the
      process could not be run. The host is an oracle keyed by the exact command line. */
  type Shell = string -> Option<string>

  /** A registered listener, identified as Java identifies it in an ArrayList (by reference). */
  type ListenerId = nat

  /** No element occurs twice. */
  predicate Distinct<T(==)>(s: seq<T>)
  {
    forall i, j :: 0 <= i < j < |s| ==> s[i] != s[j]
  }

  /** List.remove(Object): drop the first occurrence, if any. */
  function RemoveFirst<T(==)>(s: seq<T>, x: T): (r: seq<T>)
    ensures x in s ==> |r| == |s| - 1
    ensures x !in s ==> r == s
    ensures forall y :: y in r ==> y in s
    ensures forall y :: y in s && y != x ==> y in r
    ensures Distinct(s) ==> Distinct(r) && x !in r
  {
    if s == [] then []
    else if s[0] == x then s[1..]
    else
      assert Distinct(s) ==> Distinct(s[1..]) && s[0] !in s[1..];
      [s[0]] + RemoveFirst(s[1..], x)
  }
}
