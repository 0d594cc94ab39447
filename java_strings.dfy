/** The java.lang.String and commons-lang StringUtils operations the core relies on, with
    Java's semantics written out: `trim` strips characters up to U+0020, `split` drops
    trailing empty fields, `substring` and `indexOf` report failure instead of throwing. */
module JavaStrings {
  import opened Base

  /** Characters removed by String.trim. */
  predicate IsTrimmed(c: char) { c <= ' ' }

  /** Character.isWhitespace, used by StringUtils.isBlank. */
  predicate IsWhitespace(c: char)
  {
    c == ' ' || ('\t' <= c <= '\r') || ('\U{001C}' <= c <= '\U{001F}')
    || c == '\U{1680}' || ('\U{2000}' <= c <= '\U{2006}') || ('\U{2008}' <= c <= '\U{200A}')
    || c == '\U{2028}' || c == '\U{2029}' || c == '\U{205F}' || c == '\U{3000}'
  }

  /** StringUtils.isBlank (for a non-null string). */
  predicate IsBlank(s: string)
  {
    forall i :: 0 <= i < |s| ==> IsWhitespace(s[i])
  }

  function TrimStart(s: string): (r: string)
    ensures |r| <= |s| && r == s[|s| - |r|..]
    ensures forall k :: 0 <= k < |s| - |r| ==> IsTrimmed(s[k])
    ensures r != [] ==> !IsTrimmed(r[0])
  {
    if s != [] && IsTrimmed(s[0]) then TrimStart(s[1..]) else s
  }

  function TrimEnd(s: string): (r: string)
    ensures |r| <= |s| && r == s[..|r|]
    ensures forall k :: |r| <= k < |s| ==> IsTrimmed(s[k])
    ensures r != [] ==> !IsTrimmed(r[|r| - 1])
  {
    if s != [] && IsTrimmed(s[|s| - 1]) then TrimEnd(s[..|s| - 1]) else s
  }

  /** String.trim: the longest infix whose ends are not control characters or spaces. */
  function Trim(s: string): (r: string)
    ensures exists i :: OccursAt(s, i, r)
    ensures r != [] ==> !IsTrimmed(r[0]) && !IsTrimmed(r[|r| - 1])
    ensures (forall k :: 0 <= k < |s| ==> IsTrimmed(s[k])) <==> r == []
  {
    var t := TrimStart(s);
    var r := TrimEnd(t);
    var i := |s| - |t|;
    assert r == s[i..][..|r|] == s[i..i + |r|];
    assert OccursAt(s, i, r);
    r
  }

  predicate StartsWith(s: string, prefix: string)
  {
    |prefix| <= |s| && s[..|prefix|] == prefix
  }

  /** `part` occurs in `s` starting at position `i`. */
  predicate OccursAt(s: string, i: int, part: string)
  {
    0 <= i && i + |part| <= |s| && s[i..i + |part|] == part
  }

  /** String.contains. */
  predicate Contains(s: string, part: string)
  {
    exists i | 0 <= i <= |s| - |part| :: OccursAt(s, i, part)
  }

  /** String.indexOf(char): the first position of `c`, or -1. */
  function IndexOf(s: string, c: char): (r: int)
    ensures -1 <= r < |s|
    ensures r == -1 <==> c !in s
    ensures r >= 0 ==> s[r] == c && c !in s[..r]
  {
    if s == [] then -1
    else if s[0] == c then 0
    else var k := IndexOf(s[1..], c); if k == -1 then -1 else k + 1
  }

  /** String.toLowerCase, on the ASCII letters. */
  function ToLower(s: string): (r: string)
    ensures |r| == |s|
    ensures forall i :: 0 <= i < |s| ==>
      r[i] == (if 'A' <= s[i] <= 'Z' then (s[i] as int + 32) as char else s[i])
  {
    if s == [] then [] else
      [if 'A' <= s[0] <= 'Z' then (s[0] as int + 32) as char else s[0]] + ToLower(s[1..])
  }

  /** String.valueOf(Object) as used by `+` in Java: a null reference prints as "null". */
  function Show(s: Option<string>): string
  {
    match s
    case None => "null"
    case Some(t) => t
  }

  /** String.join(sep, parts) and Collectors.joining(sep). */
  function Join(parts: seq<string>, sep: string): (r: string)
  {
    if parts == [] then ""
    else if |parts| == 1 then parts[0]
    else parts[0] + sep + Join(parts[1..], sep)
  }

  // ---------------------------------------------------------------------------
  // String.split(regex)

  /** The regular expressions the core splits on. `Regex(p)` is a pattern of literal
      characters in which '.' matches any character but a line terminator: "\n", ":", "/"
      and "Win32_DiskPartition.DeviceID=\"" are of this kind. `TabOrFourSpaces` is
      "\t|(    )". */
  datatype Separator = Regex(pattern: string) | TabOrFourSpaces

  /** The line terminators of java.util.regex, which '.' does not match without DOTALL. */
  predicate IsLineTerminator(c: char)
  {
    c == '\n' || c == '\r' || c == '\U{0085}' || c == '\U{2028}' || c == '\U{2029}'
  }

  /** Pattern character `pc` matches input character `c`. */
  predicate CharMatches(pc: char, c: char)
  {
    (pc == '.' && !IsLineTerminator(c)) || c == pc
  }

  /** Every character of pattern `p` matches `s` from position `i` on. */
  predicate PatternAt(p: string, s: string, i: nat)
    requires i + |p| <= |s|
  {
    forall k :: 0 <= k < |p| ==> CharMatches(p[k], s[i + k])
  }

  /** Length of the match of `sep` that starts at position `i` of `s` (0 = no match);
      for the alternation the first alternative wins, as in java.util.regex. */
  function MatchLength(sep: Separator, s: string, i: nat): (m: nat)
    requires i <= |s|
    ensures m <= |s| - i
  {
    match sep
    case Regex(p) =>
      if p != [] && i + |p| <= |s| && PatternAt(p, s, i)
      then |p| else 0
    case TabOrFourSpaces =>
      if i < |s| && s[i] == '\t' then 1
      else if i + 4 <= |s| && s[i..i + 4] == "    " then 4
      else 0
  }

  /** The first position at or after `i` where `sep` matches, or |s|. */
  function FirstMatch(sep: Separator, s: string, i: nat): (k: nat)
    requires i <= |s|
    ensures i <= k <= |s|
    ensures k < |s| ==> MatchLength(sep, s, k) > 0
    ensures forall j :: i <= j < k ==> MatchLength(sep, s, j) == 0
    decreases |s| - i
  {
    if i == |s| then |s|
    else if MatchLength(sep, s, i) > 0 then i
    else FirstMatch(sep, s, i + 1)
  }

  /** The fields between successive leftmost non-overlapping matches, empty ones included. */
  function Fields(sep: Separator, s: string): (r: seq<string>)
    ensures |r| >= 1
    decreases |s|
  {
    var k := FirstMatch(sep, s, 0);
    if k == |s| then [s]
    else [s[..k]] + Fields(sep, s[k + MatchLength(sep, s, k)..])
  }

  /** Drop the empty strings at the end of a list of fields. */
  function DropTrailingEmpty(fs: seq<string>): (r: seq<string>)
    ensures |r| <= |fs| && r == fs[..|r|]
    ensures r != [] ==> r[|r| - 1] != ""
    ensures forall k :: |r| <= k < |fs| ==> fs[k] == ""
  {
    if fs != [] && fs[|fs| - 1] == "" then DropTrailingEmpty(fs[..|fs| - 1]) else fs
  }

  /** String.split(regex) with limit 0: when nothing matches the result is the input itself;
      otherwise trailing empty fields are discarded (so the result may be empty). */
  function Split(sep: Separator, s: string): (r: seq<string>)
  {
    var fs := Fields(sep, s);
    if |fs| == 1 then fs else DropTrailingEmpty(fs)
  }

  /** The separator for one literal character (`c` is not a regex metacharacter). */
  function CharSep(c: char): Separator { Regex([c]) }

  const Newline: Separator := CharSep('\n')

  // ---------------------------------------------------------------------------
  // Lemmas: splitting on a character undoes joining on it.

  lemma {:induction false} NoMatchBefore(c: char, a: string, b: string)
    requires c != '.' && c !in a
    ensures FirstMatch(CharSep(c), a + [c] + b, 0) == |a|
  {
    var s := a + [c] + b;
    assert MatchLength(CharSep(c), s, |a|) > 0;
    forall j | 0 <= j < |a| ensures MatchLength(CharSep(c), s, j) == 0 {
      var p := CharSep(c).pattern;
      assert s[j + 0] == a[j] != c;
      assert !CharMatches(p[0], s[j + 0]);
    }
    FirstMatchIs(CharSep(c), s, 0, |a|);
  }

  lemma {:induction false} FirstMatchIs(sep: Separator, s: string, i: nat, k: nat)
    requires i <= k < |s|
    requires MatchLength(sep, s, k) > 0
    requires forall j :: i <= j < k ==> MatchLength(sep, s, j) == 0
    ensures FirstMatch(sep, s, i) == k
    decreases k - i
  {
    if i < k { FirstMatchIs(sep, s, i + 1, k); }
  }

  lemma {:induction false} NoMatchAtAll(c: char, a: string)
    requires c != '.' && c !in a
    ensures FirstMatch(CharSep(c), a, 0) == |a|
  {
    forall j | 0 <= j < |a| ensures MatchLength(CharSep(c), a, j) == 0 {
      var p := CharSep(c).pattern;
      assert !CharMatches(p[0], a[j + 0]);
    }
  }

  /** Splitting the joined fields on the joining character gives the raw fields back. */
  lemma {:induction false} FieldsOfJoin(parts: seq<string>, c: char)
    requires c != '.' && parts != []
    requires forall i :: 0 <= i < |parts| ==> c !in parts[i]
    ensures Fields(CharSep(c), Join(parts, [c])) == parts
  {
    var s := Join(parts, [c]);
    if |parts| == 1 {
      NoMatchAtAll(c, parts[0]);
    } else {
      var rest := Join(parts[1..], [c]);
      assert s == parts[0] + [c] + rest;
      NoMatchBefore(c, parts[0], rest);
      assert MatchLength(CharSep(c), s, |parts[0]|) == 1;
      assert s[..|parts[0]|] == parts[0];
      assert s[|parts[0]| + 1..] == rest;
      FieldsOfJoin(parts[1..], c);
    }
  }

  /** Round trip: split(join(parts, c), c) == parts when no part is empty or holds `c`. */
  lemma SplitJoin(parts: seq<string>, c: char)
    requires c != '.' && parts != []
    requires forall i :: 0 <= i < |parts| ==> parts[i] != "" && c !in parts[i]
    ensures Split(CharSep(c), Join(parts, [c])) == parts
  {
    FieldsOfJoin(parts, c);
  }

  /** A one-character separator matches exactly where that character is. */
  lemma CharMatch(c: char, s: string, i: nat)
    requires c != '.' && i <= |s|
    ensures MatchLength(CharSep(c), s, i) == if i < |s| && s[i] == c then 1 else 0
  {
    var p := CharSep(c).pattern;
    assert p == [c];
    if i < |s| && s[i] != c {
      assert !CharMatches(p[0], s[i + 0]);
    }
  }

  /** FirstMatch of a single character is String.indexOf. */
  lemma {:induction false} FirstMatchIndexOf(c: char, s: string, i: nat)
    requires c != '.' && i <= |s|
    ensures FirstMatch(CharSep(c), s, i) == if c in s[i..] then i + IndexOf(s[i..], c) else |s|
    decreases |s| - i
  {
    if i < |s| {
      var p := CharSep(c).pattern;
      assert s[i..] == [s[i]] + s[i + 1..];
      if s[i] == c {
        assert MatchLength(CharSep(c), s, i) == 1;
      } else {
        assert !CharMatches(p[0], s[i + 0]);
        FirstMatchIndexOf(c, s, i + 1);
      }
    }
  }

  /** Every string in `fs` is empty. */
  predicate AllEmpty(fs: seq<string>)
  {
    forall k :: 0 <= k < |fs| ==> fs[k] == ""
  }

  /** `s` consists of `c`s only. */
  predicate RunOf(s: string, c: char)
  {
    forall k :: 0 <= k < |s| ==> s[k] == c
  }

  /** The fields of `s` split at every `c` are all empty exactly when `s` is a run of `c`s. */
  lemma {:induction false} FieldsAllEmpty(c: char, s: string)
    requires c != '.'
    ensures AllEmpty(Fields(CharSep(c), s)) <==> RunOf(s, c)
    decreases |s|
  {
    var fs := Fields(CharSep(c), s);
    var m := FirstMatch(CharSep(c), s, 0);
    forall j | 0 <= j < m ensures s[j] != c {
      CharMatch(c, s, j);
    }
    if m < |s| {
      CharMatch(c, s, m);
      var rest := s[m + 1..];
      var rfs := Fields(CharSep(c), rest);
      assert fs == [s[..m]] + rfs;
      if m == 0 {
        FieldsAllEmpty(c, rest);
        assert AllEmpty(fs) <==> AllEmpty(rfs) by {
          assert forall k :: 0 <= k < |rfs| ==> rfs[k] == fs[k + 1];
          assert fs[0] == "";
        }
        assert RunOf(s, c) <==> RunOf(rest, c) by {
          assert forall k :: 0 <= k < |rest| ==> rest[k] == s[k + 1];
          assert s[0] == c;
        }
      } else {
        assert fs[0] == s[..m] && |fs[0]| == m;
        assert !AllEmpty(fs);
        assert !RunOf(s, c);
      }
    } else if s != [] {
      assert fs == [s] && s[0] != c && fs[0] != "";
      assert !AllEmpty(fs);
      assert !RunOf(s, c);
    }
  }

  /** `s.split(c)[0]`: the text before the first `c` (all of `s` when there is none); the
      array is empty, so that `[0]` throws, exactly when `s` is a non-empty run of `c`s. */
  lemma SplitFirstField(c: char, s: string)
    requires c != '.'
    ensures Split(CharSep(c), s) == [] <==> s != "" && forall k :: 0 <= k < |s| ==> s[k] == c
    ensures Split(CharSep(c), s) != [] ==>
      Split(CharSep(c), s)[0] == if c in s then s[..IndexOf(s, c)] else s
  {
    var fs := Fields(CharSep(c), s);
    FirstMatchIndexOf(c, s, 0);
    FieldsAllEmpty(c, s);
    assert s[0..] == s;
    if |fs| > 1 {
      var r := DropTrailingEmpty(fs);
      if r == [] {
        assert forall k :: 0 <= k < |fs| ==> fs[k] == "";
      } else {
        assert r[0] == fs[0];
      }
    }
  }

  /** Trimming a trimmed string changes nothing. */
  lemma TrimIdempotent(s: string)
    ensures Trim(Trim(s)) == Trim(s)
  {
    var t := Trim(s);
    if t != [] {
      assert TrimStart(t) == t;
      assert TrimEnd(t) == t;
    }
  }

  // ---------------------------------------------------------------------------
  // Lemmas: what the fields of a split look like.

  /** No separator match starts inside `f`. */
  predicate Unseparated(sep: Separator, f: string)
  {
    forall j :: 0 <= j < |f| ==> MatchLength(sep, f, j) == 0
  }

  /** A match inside a prefix of `s` is a match in `s`. */
  lemma MatchInPrefix(sep: Separator, s: string, k: nat, j: nat)
    requires j <= k <= |s|
    ensures MatchLength(sep, s[..k], j) > 0 ==> MatchLength(sep, s, j) > 0
  {
    match sep
    case Regex(p) =>
      if MatchLength(sep, s[..k], j) > 0 {
        forall i | 0 <= i < |p| ensures CharMatches(p[i], s[j + i]) {
          assert s[..k][j + i] == s[j + i];
        }
      }
    case TabOrFourSpaces =>
      if j + 4 <= k { assert s[..k][j..j + 4] == s[j..j + 4]; }
  }

  /** Every field is free of separators. */
  lemma {:induction false} FieldsUnseparated(sep: Separator, s: string)
    ensures forall m :: 0 <= m < |Fields(sep, s)| ==> Unseparated(sep, Fields(sep, s)[m])
    decreases |s|
  {
    var k := FirstMatch(sep, s, 0);
    forall j | 0 <= j < k ensures MatchLength(sep, s[..k], j) == 0 {
      MatchInPrefix(sep, s, k, j);
    }
    var fs := Fields(sep, s);
    if k < |s| {
      var t := s[k + MatchLength(sep, s, k)..];
      var ft := Fields(sep, t);
      assert fs == [s[..k]] + ft;
      FieldsUnseparated(sep, t);
      forall m | 0 <= m < |fs| ensures Unseparated(sep, fs[m]) {
        if m > 0 {
          assert fs[m] == ft[m - 1];
        }
      }
    } else {
      assert s[..k] == s;
    }
  }

  /** The characters "\t|(    )" is made of. */
  predicate IsTabOrSpace(c: char) { c == ' ' || c == '\t' }

  /** A match of "\t|(    )" consists of tabs and spaces. */
  lemma MatchIsBlank(s: string, k: nat)
    requires k <= |s| && MatchLength(TabOrFourSpaces, s, k) > 0
    ensures forall j :: k <= j < k + MatchLength(TabOrFourSpaces, s, k) ==> IsTabOrSpace(s[j])
  {
    if MatchLength(TabOrFourSpaces, s, k) == 4 {
      assert forall j :: k <= j < k + 4 ==> s[j] == s[k..k + 4][j - k];
    }
  }

  /** When every field is empty the string is nothing but separators. */
  lemma {:induction false} EmptyFieldsAreSeparators(s: string)
    requires forall m :: 0 <= m < |Fields(TabOrFourSpaces, s)| ==> Fields(TabOrFourSpaces, s)[m] == ""
    ensures forall j :: 0 <= j < |s| ==> IsTabOrSpace(s[j])
    decreases |s|
  {
    var fs := Fields(TabOrFourSpaces, s);
    var k := FirstMatch(TabOrFourSpaces, s, 0);
    assert fs[0] == s[..k];
    if k < |s| {
      var len := MatchLength(TabOrFourSpaces, s, k);
      var t := s[k + len..];
      assert forall m :: 0 <= m < |Fields(TabOrFourSpaces, t)| ==> Fields(TabOrFourSpaces, t)[m] == fs[m + 1];
      EmptyFieldsAreSeparators(t);
      MatchIsBlank(s, k);
      assert forall j :: k + len <= j < |s| ==> s[j] == t[j - (k + len)];
    }
  }

  /** After a first field followed only by empty fields come only tabs and spaces. */
  lemma FirstFieldTail(s: string)
    requires FirstMatch(TabOrFourSpaces, s, 0) < |s|
    requires forall q :: 0 < q < |Fields(TabOrFourSpaces, s)| ==> Fields(TabOrFourSpaces, s)[q] == ""
    ensures forall j :: FirstMatch(TabOrFourSpaces, s, 0) <= j < |s| ==> IsTabOrSpace(s[j])
  {
    var fs := Fields(TabOrFourSpaces, s);
    var k := FirstMatch(TabOrFourSpaces, s, 0);
    var len := MatchLength(TabOrFourSpaces, s, k);
    var t := s[k + len..];
    var ft := Fields(TabOrFourSpaces, t);
    assert fs == [s[..k]] + ft;
    assert forall q :: 0 <= q < |ft| ==> ft[q] == fs[q + 1];
    EmptyFieldsAreSeparators(t);
    MatchIsBlank(s, k);
    forall j | k + len <= j < |s| ensures IsTabOrSpace(s[j]) {
      assert s[j] == t[j - (k + len)];
    }
  }

  /** Every field after the `m`-th is empty. */
  predicate EmptyAfter(fs: seq<string>, m: nat)
  {
    forall q :: m < q < |fs| ==> fs[q] == ""
  }

  /** A field followed only by empty fields is followed in `s` only by tabs and spaces. */
  lemma {:induction false} FieldTail(s: string, m: nat) returns (i: nat)
    requires m < |Fields(TabOrFourSpaces, s)| && EmptyAfter(Fields(TabOrFourSpaces, s), m)
    ensures OccursAt(s, i, Fields(TabOrFourSpaces, s)[m])
    ensures forall j :: i + |Fields(TabOrFourSpaces, s)[m]| <= j < |s| ==> IsTabOrSpace(s[j])
    decreases |s|, 1
  {
    var fs := Fields(TabOrFourSpaces, s);
    var k := FirstMatch(TabOrFourSpaces, s, 0);
    if k == |s| {
      i := 0;
      assert OccursAt(s, 0, fs[0]);
    } else if m == 0 {
      i := 0;
      FirstFieldTail(s);
      assert OccursAt(s, 0, fs[0]);
    } else {
      i := LaterFieldTail(s, m);
    }
  }

  /** FieldTail for a field after the first: it is a field of what follows the first match. */
  lemma {:induction false} LaterFieldTail(s: string, m: nat) returns (i: nat)
    requires 0 < m < |Fields(TabOrFourSpaces, s)| && EmptyAfter(Fields(TabOrFourSpaces, s), m)
    requires FirstMatch(TabOrFourSpaces, s, 0) < |s|
    ensures OccursAt(s, i, Fields(TabOrFourSpaces, s)[m])
    ensures forall j :: i + |Fields(TabOrFourSpaces, s)[m]| <= j < |s| ==> IsTabOrSpace(s[j])
    decreases |s|, 0
  {
    var fs := Fields(TabOrFourSpaces, s);
    var k := FirstMatch(TabOrFourSpaces, s, 0);
    var off := k + MatchLength(TabOrFourSpaces, s, k);
    var ft := Fields(TabOrFourSpaces, s[off..]);
    assert fs == [s[..k]] + ft;
    assert EmptyAfter(ft, m - 1) by {
      forall q | m - 1 < q < |ft| ensures ft[q] == "" {
        assert ft[q] == fs[q + 1];
      }
    }
    var i' := FieldTail(s[off..], m - 1);
    ShiftTail(s, off, i', ft[m - 1]);
    i := off + i';
  }

  /** An occurrence in a suffix, followed there only by tabs and spaces, is one in the
      whole string. */
  lemma ShiftTail(s: string, off: nat, i: nat, f: string)
    requires off <= |s| && OccursAt(s[off..], i, f)
    requires forall j :: i + |f| <= j < |s| - off ==> IsTabOrSpace(s[off..][j])
    ensures OccursAt(s, off + i, f)
    ensures forall j :: off + i + |f| <= j < |s| ==> IsTabOrSpace(s[j])
  {
    assert s[off..][i..i + |f|] == s[off + i..off + i + |f|];
    forall j | off + i + |f| <= j < |s| ensures IsTabOrSpace(s[j]) {
      assert s[j] == s[off..][j - off];
    }
  }

  /** The last element of `s.split("\t|(    )")`: a field of `s` holding no tab and no run
      of four spaces, after which `s` has only tabs and spaces. */
  lemma LastTabField(s: string)
    requires Split(TabOrFourSpaces, s) != []
    ensures var r := Split(TabOrFourSpaces, s); var f := r[|r| - 1];
      Unseparated(TabOrFourSpaces, f) &&
      exists i :: OccursAt(s, i, f) && forall j :: i + |f| <= j < |s| ==> IsTabOrSpace(s[j])
  {
    var fs := Fields(TabOrFourSpaces, s);
    var r := Split(TabOrFourSpaces, s);
    FieldsUnseparated(TabOrFourSpaces, s);
    assert r[|r| - 1] == fs[|r| - 1];
    var i := FieldTail(s, |r| - 1);
    assert OccursAt(s, i, r[|r| - 1]);
  }

  /** `s.split(regex)` is empty exactly when every field is empty and there are several. */
  lemma SplitEmptyFields(sep: Separator, s: string)
    ensures Split(sep, s) == [] <==>
      |Fields(sep, s)| > 1 && forall m :: 0 <= m < |Fields(sep, s)| ==> Fields(sep, s)[m] == ""
  {
  }

  /** `s.split(regex)[1]` is the text that follows the first match, up to the next one. */
  lemma SecondField(sep: Separator, s: string)
    requires |Split(sep, s)| >= 2
    ensures var k := FirstMatch(sep, s, 0);
      k < |s| && OccursAt(s, k + MatchLength(sep, s, k), Split(sep, s)[1])
  {
    var fs := Fields(sep, s);
    var k := FirstMatch(sep, s, 0);
    var t := s[k + MatchLength(sep, s, k)..];
    var ft := Fields(sep, t);
    assert fs == [s[..k]] + ft;
    var t1 := ft[0];
    var k' := FirstMatch(sep, t, 0);
    assert t1 == t[..k'];
    assert Split(sep, s)[1] == fs[1] == t1;
  }

  /** No match of "\t|(    )" starts inside an unseparated part followed by a tab. */
  lemma TabJoinNoMatch(a: string, rest: string, j: nat)
    requires Unseparated(TabOrFourSpaces, a) && j < |a|
    ensures MatchLength(TabOrFourSpaces, a + "\t" + rest, j) == 0
  {
    var s := a + "\t" + rest;
    assert MatchLength(TabOrFourSpaces, a, j) == 0;
    assert s[j] == a[j];
    if j + 4 <= |s| {
      if j + 4 <= |a| {
        assert a[j..j + 4] == s[j..j + 4];
      } else {
        assert s[j..j + 4][|a| - j] == '\t';
      }
    }
  }

  /** Splitting fields joined by tabs on "\t|(    )" gives the raw fields back, when no
      field holds a tab or four spaces in a row. */
  lemma {:induction false} TabFieldsOfJoin(parts: seq<string>)
    requires parts != []
    requires forall i :: 0 <= i < |parts| ==> Unseparated(TabOrFourSpaces, parts[i])
    ensures Fields(TabOrFourSpaces, Join(parts, "\t")) == parts
  {
    var s := Join(parts, "\t");
    if |parts| == 1 {
      assert s == parts[0];
    } else {
      var a := parts[0];
      var rest := Join(parts[1..], "\t");
      assert s == a + "\t" + rest;
      forall j | 0 <= j < |a| ensures MatchLength(TabOrFourSpaces, s, j) == 0 {
        TabJoinNoMatch(a, rest, j);
      }
      assert MatchLength(TabOrFourSpaces, s, |a|) == 1;
      FirstMatchIs(TabOrFourSpaces, s, 0, |a|);
      assert s[..|a|] == a;
      assert s[|a| + 1..] == rest;
      TabFieldsOfJoin(parts[1..]);
    }
  }

  /** A prefix of an occurrence is an occurrence at the same place. */
  lemma OccursPrefix(s: string, i: int, f: string, n: nat)
    requires OccursAt(s, i, f) && n <= |f|
    ensures OccursAt(s, i, f[..n])
  {
    assert s[i..i + n] == s[i..i + |f|][..n];
  }

  /** A string whose ends are not stripped is its own trim. */
  lemma TrimUntouched(s: string)
    requires s != [] && !IsTrimmed(s[0]) && !IsTrimmed(s[|s| - 1])
    ensures Trim(s) == s
  {
    assert TrimStart(s) == s;
    assert TrimEnd(s) == s;
  }

  /** Trimming adds no character. */
  lemma TrimKeepsOut(s: string, c: char)
    requires c !in s
    ensures c !in Trim(s)
  {
    var r := Trim(s);
    var i :| OccursAt(s, i, r);
    forall m | 0 <= m < |r| ensures r[m] != c {
      assert r[m] == s[i..i + |r|][m] == s[i + m];
    }
  }

  /** Joining nothing and splitting gives one empty line, as in Java. */
  lemma SplitEmpty(sep: Separator)
    ensures Split(sep, "") == [""]
  {
  }
}
