/** WindowsReqistry: reading one value and listing one key of the registry through the
    output of `reg query`. The command runner is an oracle; any exception is a null result. */
module WindowsRegistry {
  import opened Base
  import opened JavaStrings

  /** The command line readRegistry runs. */
  function QueryValueCmd(location: string, key: string): string
  {
    "reg query \"" + location + "\" /v " + key
  }

  /** The command line readLocation runs. */
  function QueryKeyCmd(location: string): string
  {
    "reg query \"" + location + "\""
  }

  /** `parsed = s.split("\t|(    )"); parsed[parsed.length - 1].trim()`: the trimmed last
      field, or None where the index throws because no field is left. */
  function LastField(s: string): (r: Option<string>)
    ensures r.None? <==> Split(TabOrFourSpaces, s) == []
    ensures r.None? ==> forall j :: 0 <= j < |s| ==> IsTabOrSpace(s[j])
    ensures r.Some? ==> exists f, i :: (r.value == Trim(f) && Unseparated(TabOrFourSpaces, f) &&
      OccursAt(s, i, f) && forall j :: i + |f| <= j < |s| ==> IsTabOrSpace(s[j]))
  {
    var parsed := Split(TabOrFourSpaces, s);
    SplitEmptyFields(TabOrFourSpaces, s);
    if parsed == [] then
      EmptyFieldsAreSeparators(s);
      None
    else
      LastTabField(s);
      Some(Trim(parsed[|parsed| - 1]))
  }

  /** Round trip: tab-separated fields, the last one non-empty, give back the trimmed last
      field. */
  lemma LastFieldOfJoin(parts: seq<string>)
    requires parts != [] && parts[|parts| - 1] != ""
    requires forall i :: 0 <= i < |parts| ==> Unseparated(TabOrFourSpaces, parts[i])
    ensures LastField(Join(parts, "\t")) == Some(Trim(parts[|parts| - 1]))
  {
    var s := Join(parts, "\t");
    TabFieldsOfJoin(parts);
    var fs := Fields(TabOrFourSpaces, s);
    assert Split(TabOrFourSpaces, s) == parts by {
      if |fs| != 1 { assert DropTrailingEmpty(fs) == fs; }
    }
    LastFieldIsLast(s);
  }

  /** LastField takes the last element of the split. */
  lemma LastFieldIsLast(s: string)
    requires Split(TabOrFourSpaces, s) != []
    ensures LastField(s) == Some(Trim(Split(TabOrFourSpaces, s)[|Split(TabOrFourSpaces, s)| - 1]))
  {
  }

  /** readRegistry(location, key): null when the command fails, when its output does not
      mention `key`, or when no field is left to take (the index throws and is caught);
      otherwise the trimmed last field of the output. */
  function ReadRegistry(exec: Shell, location: string, key: string): (r: Option<string>)
    ensures var out := exec(QueryValueCmd(location, key));
      out.None? || !Contains(out.value, key) ==> r.None?
    ensures var out := exec(QueryValueCmd(location, key));
      out.Some? && Contains(out.value, key) && (exists j :: 0 <= j < |out.value| && !IsTabOrSpace(out.value[j]))
      ==> r.Some?
    ensures r.Some? ==> r == LastField(exec(QueryValueCmd(location, key)).value)
  {
    var out := exec(QueryValueCmd(location, key));
    if out.None? || !Contains(out.value, key) then None
    else LastField(out.value)
  }

  /** A value line made of tab-separated fields that mentions the key gives its trimmed
      last field. */
  lemma ReadRegistryOfFields(exec: Shell, location: string, key: string, parts: seq<string>)
    requires parts != [] && parts[|parts| - 1] != ""
    requires forall i :: 0 <= i < |parts| ==> Unseparated(TabOrFourSpaces, parts[i])
    requires exec(QueryValueCmd(location, key)) == Some(Join(parts, "\t"))
    requires Contains(Join(parts, "\t"), key)
    ensures ReadRegistry(exec, location, key) == Some(Trim(parts[|parts| - 1]))
  {
    LastFieldOfJoin(parts);
  }

  /** `.filter(s -> !s.isEmpty())`, keeping the order. */
  function NonEmpty(xs: seq<string>): (r: seq<string>)
    ensures |r| <= |xs|
    ensures forall i :: 0 <= i < |r| ==> r[i] != ""
    ensures forall x :: x in r <==> x in xs && x != ""
  {
    if xs == [] then []
    else if xs[0] == "" then NonEmpty(xs[1..])
    else [xs[0]] + NonEmpty(xs[1..])
  }

  /** The filter distributes over concatenation, so it keeps the order of what it keeps. */
  lemma {:induction false} NonEmptyAppend(xs: seq<string>, ys: seq<string>)
    ensures NonEmpty(xs + ys) == NonEmpty(xs) + NonEmpty(ys)
  {
    if xs != [] {
      var zs := xs + ys;
      assert zs[0] == xs[0] && zs[1..] == xs[1..] + ys;
      NonEmptyAppend(xs[1..], ys);
    } else {
      assert xs + ys == ys;
    }
  }

  /** A list without empty strings passes the filter unchanged. */
  lemma {:induction false} NonEmptyKeepsAll(xs: seq<string>)
    requires forall i :: 0 <= i < |xs| ==> xs[i] != ""
    ensures NonEmpty(xs) == xs
  {
    if xs != [] { NonEmptyKeepsAll(xs[1..]); }
  }

  /** The lines of `s.split("\n")` hold no line break. */
  lemma LinesHaveNoBreak(s: string)
    ensures forall i :: 0 <= i < |Split(Newline, s)| ==> '\n' !in Split(Newline, s)[i]
  {
    FieldsUnseparated(Newline, s);
    var fs := Fields(Newline, s);
    forall m, j | 0 <= m < |fs| && 0 <= j < |fs[m]| ensures fs[m][j] != '\n' {
      CharMatch('\n', fs[m], j);
    }
  }

  /** readLocation(location): null when the command fails; otherwise the output's lines, in
      their order, with the empty ones dropped. */
  function ReadLocation(exec: Shell, location: string): (r: Option<seq<string>>)
    ensures r.None? <==> exec(QueryKeyCmd(location)).None?
    ensures r.Some? ==> forall i :: 0 <= i < |r.value| ==> r.value[i] != "" && '\n' !in r.value[i]
    ensures r.Some? ==> forall x :: x in r.value <==> x in Split(Newline, exec(QueryKeyCmd(location)).value) && x != ""
    ensures r.Some? ==> r.value == NonEmpty(Split(Newline, exec(QueryKeyCmd(location)).value))
  {
    match exec(QueryKeyCmd(location))
    case None => None
    case Some(out) =>
      LinesHaveNoBreak(out);
      assert forall x :: x in Split(Newline, out) ==> '\n' !in x;
      Some(NonEmpty(Split(Newline, out)))
  }

  /** Listing output made of non-empty lines joined by '\n' gives exactly those lines back. */
  lemma ReadLocationOfLines(exec: Shell, location: string, lines: seq<string>)
    requires lines != []
    requires forall i :: 0 <= i < |lines| ==> lines[i] != "" && '\n' !in lines[i]
    requires exec(QueryKeyCmd(location)) == Some(Join(lines, "\n"))
    ensures ReadLocation(exec, location) == Some(lines)
  {
    SplitJoin(lines, '\n');
    NonEmptyKeepsAll(lines);
  }
}
