/** The update checker of the add-on, with the network, the host's module list and
    the file system replaced by plain values: version strings and version tuples,
    the release-tag pattern, the update decision, the download address and the
    mapping of archive entries to paths inside the add-on directory. */
module UpdateChecker {
  import opened Wrappers

  const GitHubRepo: string := "Phlanka/PhlankaFortnite"
  const GitHubApiUrl: string := "https://api.github.com/repos/" + GitHubRepo + "/releases/latest"
  const GitHubDownloadUrl: string := "https://github.com/" + GitHubRepo + "/releases/download/"
  /** What follows the tag in a download address. */
  const ArchiveSuffix: string := "/PhlankaFortnite.zip"
  /** The `name` entry of the add-on's own `bl_info`. */
  const AddonName: string := "Phlanka Fortnite"
  /** The version assumed when `bl_info` has no `version` entry. */
  const DefaultVersion: seq<nat> := [0, 0, 0]

  // ---------------------------------------------------------------------------
  // Decimal numerals

  predicate IsDigit(c: char) {
    '0' <= c <= '9'
  }

  predicate AllDigits(s: string) {
    forall i :: 0 <= i < |s| ==> IsDigit(s[i])
  }

  /** A string that `int()` turns into a number in this model: one or more ASCII digits. */
  predicate IsNumeral(s: string) {
    |s| > 0 && AllDigits(s)
  }

  function DigitChar(d: nat): (c: char)
    requires d < 10
    ensures IsDigit(c) && c as int - '0' as int == d
  {
    ('0' as int + d) as char
  }

  /** Python's `str(x)` of a non-negative integer: its decimal numeral, without leading zeros. */
  function NatToString(n: nat): (s: string)
    ensures IsNumeral(s)
    ensures s[0] == '0' <==> n == 0
    ensures n == 0 ==> s == "0"
    decreases n
  {
    if n < 10 then [DigitChar(n)] else NatToString(n / 10) + [DigitChar(n % 10)]
  }

  /** Python's `int(s)` of a string of ASCII digits. */
  function ParseDigits(s: string): nat
    requires AllDigits(s)
  {
    if s == [] then 0 else ParseDigits(s[..|s| - 1]) * 10 + (s[|s| - 1] as int - '0' as int)
  }

  /** `int(str(n)) == n` for every non-negative integer. */
  lemma {:induction false} ParseNatToString(n: nat)
    ensures ParseDigits(NatToString(n)) == n
    decreases n
  {
    var s := NatToString(n);
    if n < 10 {
      assert s[..|s| - 1] == [];
    } else {
      ParseNatToString(n / 10);
      assert s[..|s| - 1] == NatToString(n / 10);
    }
  }

  /** A leading zero does not change the value of a numeral: "02" and "2" are both 2. */
  lemma {:induction false} ParseDigitsLeadingZero(p: string)
    requires AllDigits(p)
    ensures ParseDigits("0" + p) == ParseDigits(p)
  {
    if p != [] {
      var q := p[..|p| - 1];
      ParseDigitsLeadingZero(q);
      assert ("0" + p)[..|p|] == "0" + q;
    }
  }

  // ---------------------------------------------------------------------------
  // str.split and str.join on a one-character separator

  function Occurrences(s: string, c: char): nat {
    if s == [] then 0 else (if s[0] == c then 1 else 0) + Occurrences(s[1..], c)
  }

  /** Python's `sep.join(parts)`. */
  function Join(parts: seq<string>, sep: char): string {
    if |parts| == 0 then ""
    else if |parts| == 1 then parts[0]
    else parts[0] + [sep] + Join(parts[1..], sep)
  }

  /** Python's `s.split(sep)`: the maximal separator-free pieces, empty ones included. */
  function Split(s: string, sep: char): (parts: seq<string>)
    ensures |parts| == Occurrences(s, sep) + 1
    ensures forall i :: 0 <= i < |parts| ==> sep !in parts[i]
  {
    if s == [] then [""]
    else
      var rest := Split(s[1..], sep);
      if s[0] == sep then [""] + rest
      else
        assert sep !in [s[0]] + rest[0];
        [[s[0]] + rest[0]] + rest[1..]
  }

  /** Joining the pieces of a split gives back the string. */
  lemma {:induction false} JoinSplit(s: string, sep: char)
    ensures Join(Split(s, sep), sep) == s
  {
    if s != [] {
      JoinSplit(s[1..], sep);
      var rest := Split(s[1..], sep);
      var parts := Split(s, sep);
      if s[0] == sep {
        assert parts[1..] == rest;
      } else if |rest| > 1 {
        assert parts[1..] == rest[1..];
        assert Join(rest, sep) == rest[0] + [sep] + Join(rest[1..], sep);
      }
    }
  }

  /** Splitting `p + rest` where `p` holds no separator glues `p` onto the first piece of `rest`. */
  lemma {:induction false} SplitPrefix(p: string, rest: string, sep: char)
    requires sep !in p
    ensures Split(p + rest, sep) == [p + Split(rest, sep)[0]] + Split(rest, sep)[1..]
  {
    if p != [] {
      SplitPrefix(p[1..], rest, sep);
      var r := Split(rest, sep);
      var s := p + rest;
      assert s[0] == p[0] && s[0] != sep;
      assert s[1..] == p[1..] + rest;
      var inner := Split(s[1..], sep);
      assert inner == [p[1..] + r[0]] + r[1..];
      assert Split(s, sep) == [[s[0]] + inner[0]] + inner[1..];
      assert [p[0]] + (p[1..] + r[0]) == p + r[0];
    } else {
      var r := Split(rest, sep);
      assert p + rest == rest && p + r[0] == r[0];
      assert r == [r[0]] + r[1..];
    }
  }

  /** Splitting a join of separator-free pieces gives back the pieces. */
  lemma {:induction false} SplitJoin(parts: seq<string>, sep: char)
    requires |parts| > 0
    requires forall i :: 0 <= i < |parts| ==> sep !in parts[i]
    ensures Split(Join(parts, sep), sep) == parts
  {
    if |parts| == 1 {
      SplitPrefix(parts[0], "", sep);
      assert Split("", sep) == [""];
      assert parts[0] + "" == parts[0];
      assert parts == [parts[0]];
    } else {
      var tail := Join(parts[1..], sep);
      SplitJoin(parts[1..], sep);
      assert ([sep] + tail)[1..] == tail;
      assert Split([sep] + tail, sep) == [""] + parts[1..];
      SplitPrefix(parts[0], [sep] + tail, sep);
      assert parts[0] + ([sep] + tail) == Join(parts, sep);
      assert parts[0] + "" == parts[0];
    }
  }

  // ---------------------------------------------------------------------------
  // Version strings and version tuples

  /** The numerals of the elements of a version tuple. */
  function Numerals(v: seq<nat>): (ss: seq<string>)
    ensures |ss| == |v| && forall i :: 0 <= i < |v| ==> ss[i] == NatToString(v[i])
  {
    seq(|v|, i requires 0 <= i < |v| => NatToString(v[i]))
  }

  /** The dotted version string of a tuple: each element's decimal numeral, joined by dots. */
  function VersionString(v: seq<nat>): string {
    Join(Numerals(v), '.')
  }

  /** The version tuple of a dotted string: the decimal value of each dot-separated part, in
      order; `None` when some part is not a numeral, where the conversion raises. */
  function VersionTuple(s: string): (r: Option<seq<nat>>)
    ensures r.Some? <==> forall p :: p in Split(s, '.') ==> IsNumeral(p)
    ensures r.Some? ==> |r.value| == Occurrences(s, '.') + 1
    ensures r.Some? ==> forall i :: 0 <= i < |r.value| ==>
              IsNumeral(Split(s, '.')[i]) && r.value[i] == ParseDigits(Split(s, '.')[i])
  {
    var parts := Split(s, '.');
    if forall i :: 0 <= i < |parts| ==> IsNumeral(parts[i]) then
      Some(seq(|parts|, i requires 0 <= i < |parts| => ParseDigits(parts[i])))
    else
      None
  }

  /** Parsing a joined version tuple gives the tuple back; the empty tuple joins to "",
      which does not parse. */
  lemma VersionRoundTrip(v: seq<nat>)
    ensures VersionTuple(VersionString(v)) == if |v| == 0 then None else Some(v)
  {
    var strs := Numerals(v);
    if |v| == 0 {
      assert VersionString(v) == "";
      assert Split("", '.') == [""];
      assert !IsNumeral(Split("", '.')[0]);
    } else {
      forall i | 0 <= i < |strs|
        ensures '.' !in strs[i]
      {
        assert !IsDigit('.');
      }
      SplitJoin(strs, '.');
      assert Split(VersionString(v), '.') == strs;
      assert forall i :: 0 <= i < |strs| ==> IsNumeral(strs[i]);
      var r := VersionTuple(VersionString(v));
      assert r.Some?;
      forall i | 0 <= i < |v|
        ensures r.value[i] == v[i]
      {
        ParseNatToString(v[i]);
      }
      assert r.value == v;
    }
  }

  // ---------------------------------------------------------------------------
  // Python's tuple order

  /** `a < b` on tuples of integers: the first differing element decides, and a proper
      prefix is smaller than the tuple it starts. */
  predicate LexLess(a: seq<nat>, b: seq<nat>) {
    if |b| == 0 then false
    else if |a| == 0 then true
    else if a[0] != b[0] then a[0] < b[0]
    else LexLess(a[1..], b[1..])
  }

  /** `a` and `b` agree on their first `k` elements and `a` is smaller at `k`, or ends there. */
  ghost predicate DivergesBelow(a: seq<nat>, b: seq<nat>, k: nat) {
    k <= |a| && k < |b| && a[..k] == b[..k] && (k == |a| || a[k] < b[k])
  }

  /** The recursive order agrees with the textbook definition of lexicographic order. */
  lemma {:induction false} LexLessIffDiverges(a: seq<nat>, b: seq<nat>)
    ensures LexLess(a, b) <==> exists k :: DivergesBelow(a, b, k)
  {
    if |b| == 0 {
    } else if |a| == 0 {
      assert DivergesBelow(a, b, 0);
    } else if a[0] != b[0] {
      if a[0] < b[0] {
        assert DivergesBelow(a, b, 0);
      } else {
        forall k: nat | DivergesBelow(a, b, k)
          ensures false
        {
        }
      }
    } else {
      LexLessIffDiverges(a[1..], b[1..]);
      if LexLess(a[1..], b[1..]) {
        var k: nat :| DivergesBelow(a[1..], b[1..], k);
        assert a[..k + 1] == [a[0]] + a[1..][..k];
        assert b[..k + 1] == [b[0]] + b[1..][..k];
        assert DivergesBelow(a, b, k + 1);
      } else {
        forall k: nat | DivergesBelow(a, b, k)
          ensures false
        {
          if k > 0 {
            assert a[1..][..k - 1] == a[..k][1..];
            assert b[1..][..k - 1] == b[..k][1..];
            assert DivergesBelow(a[1..], b[1..], k - 1);
          }
        }
      }
    }
  }

  /** No tuple is smaller than itself. */
  lemma {:induction false} LexLessIrreflexive(a: seq<nat>)
    ensures !LexLess(a, a)
  {
    if |a| > 0 {
      LexLessIrreflexive(a[1..]);
    }
  }

  /** Of two tuples, at most one is smaller than the other. */
  lemma {:induction false} LexLessAsymmetric(a: seq<nat>, b: seq<nat>)
    ensures LexLess(a, b) ==> !LexLess(b, a)
  {
    if |a| > 0 && |b| > 0 && a[0] == b[0] {
      LexLessAsymmetric(a[1..], b[1..]);
    }
  }

  lemma {:induction false} LexLessTransitive(a: seq<nat>, b: seq<nat>, c: seq<nat>)
    ensures LexLess(a, b) && LexLess(b, c) ==> LexLess(a, c)
  {
    if |a| > 0 && |b| > 0 && |c| > 0 && a[0] == b[0] && b[0] == c[0] {
      LexLessTransitive(a[1..], b[1..], c[1..]);
    }
  }

  /** Of two different tuples, one is smaller than the other. */
  lemma {:induction false} LexLessTotal(a: seq<nat>, b: seq<nat>)
    ensures a != b ==> LexLess(a, b) || LexLess(b, a)
  {
    if |a| > 0 && |b| > 0 && a[0] == b[0] {
      LexLessTotal(a[1..], b[1..]);
      if a[1..] == b[1..] {
        assert a == [a[0]] + a[1..];
        assert b == [b[0]] + b[1..];
      }
    }
  }

  // ---------------------------------------------------------------------------
  // The installed version

  /** One entry of the host's add-on module list: its `bl_info` name and version, when present. */
  datatype AddonInfo = AddonInfo(name: Option<string>, version: Option<seq<nat>>)

  /** The position of the first module whose `bl_info` name is the add-on's. */
  function FindAddon(mods: seq<AddonInfo>): (r: Option<nat>)
    ensures r.Some? ==> r.value < |mods| && mods[r.value].name == Some(AddonName)
    ensures r.Some? ==> forall j :: 0 <= j < r.value ==> mods[j].name != Some(AddonName)
    ensures r.None? ==> forall j :: 0 <= j < |mods| ==> mods[j].name != Some(AddonName)
  {
    if mods == [] then None
    else if mods[0].name == Some(AddonName) then Some(0)
    else
      match FindAddon(mods[1..])
      case None => None
      case Some(i) => Some(i + 1)
  }

  /** `get_addon_version`: the joined version of the first matching module, `(0, 0, 0)` when
      that module has no version entry, "0.0.0" when no module matches. */
  function AddonVersion(mods: seq<AddonInfo>): string {
    match FindAddon(mods)
    case None => "0.0.0"
    case Some(i) => VersionString(mods[i].version.GetOr(DefaultVersion))
  }

  /** The version tuple the add-on reports for itself. */
  function InstalledTuple(mods: seq<AddonInfo>): seq<nat> {
    match FindAddon(mods)
    case None => DefaultVersion
    case Some(i) => mods[i].version.GetOr(DefaultVersion)
  }

  /** The current version string is the dotted join of the installed tuple, "0.0.0" when no
      module matches or the module has no version entry; it parses back to that tuple unless
      the tuple is empty. */
  lemma AddonVersionParses(mods: seq<AddonInfo>)
    ensures AddonVersion(mods) == VersionString(InstalledTuple(mods))
    ensures FindAddon(mods).None? || mods[FindAddon(mods).value].version.None? ==>
              AddonVersion(mods) == "0.0.0"
    ensures VersionTuple(AddonVersion(mods)) ==
            if |InstalledTuple(mods)| == 0 then None else Some(InstalledTuple(mods))
  {
    assert VersionString(DefaultVersion) == "0.0.0" by {
      assert NatToString(0) == "0";
      assert Numerals(DefaultVersion) == ["0", "0", "0"];
      assert Numerals(DefaultVersion)[1..] == ["0", "0"];
      assert Numerals(DefaultVersion)[1..][1..] == ["0"];
    }
    VersionRoundTrip(InstalledTuple(mods));
  }

  // ---------------------------------------------------------------------------
  // The release tag: re.search(r'V?(\d+\.\d+\.\d+)', tag).group(1)

  /** The length of the run of digits that starts at `i`. */
  function DigitRun(s: string, i: nat): (n: nat)
    requires i <= |s|
    ensures i + n <= |s|
    decreases |s| - i
  {
    if i < |s| && IsDigit(s[i]) then 1 + DigitRun(s, i + 1) else 0
  }

  /** The run is made of digits and ends at a non-digit or at the end of the string. */
  lemma {:induction false} DigitRunIsMaximal(s: string, i: nat)
    requires i <= |s|
    ensures forall k :: i <= k < i + DigitRun(s, i) ==> IsDigit(s[k])
    ensures i + DigitRun(s, i) == |s| || !IsDigit(s[i + DigitRun(s, i)])
    decreases |s| - i
  {
    if i < |s| && IsDigit(s[i]) {
      DigitRunIsMaximal(s, i + 1);
    }
  }

  /** Where `\d+\.\d+\.\d+` ends when matched at `i`. A `\d+` cannot give back digits to a
      following `\.`, so each run is maximal and the match, when there is one, is unique. */
  function TripleEnd(s: string, i: nat): (r: Option<nat>)
    requires i <= |s|
    ensures r.Some? ==> i < r.value <= |s|
  {
    var a := i + DigitRun(s, i);
    if a == i || a == |s| || s[a] != '.' then None
    else
      var b := a + 1 + DigitRun(s, a + 1);
      if b == a + 1 || b == |s| || s[b] != '.' then None
      else
        var c := b + 1 + DigitRun(s, b + 1);
        if c == b + 1 then None else Some(c)
  }

  /** The regex search: the leftmost start wins, and at a start the optional `V` is tried
      first. Gives the span of group 1. */
  function SearchFrom(tag: string, i: nat): (r: Option<(nat, nat)>)
    requires i <= |tag|
    ensures r.Some? ==> i <= r.value.0 < r.value.1 <= |tag|
    decreases |tag| - i
  {
    if i < |tag| && tag[i] == 'V' && TripleEnd(tag, i + 1).Some? then Some((i + 1, TripleEnd(tag, i + 1).value))
    else if TripleEnd(tag, i).Some? then Some((i, TripleEnd(tag, i).value))
    else if i == |tag| then None
    else SearchFrom(tag, i + 1)
  }

  /** The version a release tag names, or `None` when the pattern does not occur in it. */
  function TagVersion(tag: string): Option<string> {
    match SearchFrom(tag, 0)
    case None => None
    case Some((j, e)) => Some(tag[j..e])
  }

  /** The search finds the leftmost position where a version triple is written, whether or not
      a `V` precedes it, and finds nothing exactly when none is written. */
  lemma {:induction false} SearchFindsLeftmostTriple(tag: string, i: nat)
    requires i <= |tag|
    ensures match SearchFrom(tag, i)
            case Some((j, e)) =>
              TripleEnd(tag, j) == Some(e) && forall k :: i <= k < j ==> TripleEnd(tag, k).None?
            case None => forall k :: i <= k <= |tag| ==> TripleEnd(tag, k).None?
    decreases |tag| - i
  {
    if i < |tag| && tag[i] == 'V' && TripleEnd(tag, i + 1).Some? {
      assert DigitRun(tag, i) == 0;
    } else if TripleEnd(tag, i).Some? {
    } else if i < |tag| {
      SearchFindsLeftmostTriple(tag, i + 1);
    }
  }

  /** Exactly three non-empty digit strings joined by dots: what `\d+\.\d+\.\d+` matches
      in full. */
  predicate IsVersionTriple(v: string) {
    var parts := Split(v, '.');
    |parts| == 3 && forall i :: 0 <= i < 3 ==> IsNumeral(parts[i])
  }

  /** Three numerals joined by dots form a version triple. */
  lemma TripleOfParts(p1: string, p2: string, p3: string)
    requires IsNumeral(p1) && IsNumeral(p2) && IsNumeral(p3)
    ensures IsVersionTriple(p1 + ['.'] + (p2 + ['.'] + p3))
  {
    assert !IsDigit('.');
    assert '.' !in p1 && '.' !in p2 && '.' !in p3;
    SplitJoin([p1, p2, p3], '.');
    JoinOfThree(p1, p2, p3);
  }

  /** A version triple is three numerals joined by dots. */
  lemma PartsOfTriple(v: string) returns (p1: string, p2: string, p3: string)
    requires IsVersionTriple(v)
    ensures IsNumeral(p1) && IsNumeral(p2) && IsNumeral(p3)
    ensures v == p1 + ['.'] + (p2 + ['.'] + p3)
  {
    var parts := Split(v, '.');
    p1, p2, p3 := parts[0], parts[1], parts[2];
    JoinSplit(v, '.');
    assert parts == [p1, p2, p3];
    JoinOfThree(p1, p2, p3);
  }

  lemma JoinOfThree(p1: string, p2: string, p3: string)
    ensures Join([p1, p2, p3], '.') == p1 + ['.'] + (p2 + ['.'] + p3)
  {
    assert [p1, p2, p3][1..] == [p2, p3];
    assert [p2, p3][1..] == [p3];
    assert Join([p3], '.') == p3;
    assert Join([p2, p3], '.') == p2 + ['.'] + p3;
  }

  lemma SliceAtDots(s: string, i: nat, a: nat, b: nat, c: nat)
    requires i <= a < b < c <= |s| && s[a] == '.' && s[b] == '.'
    ensures s[i..c] == s[i..a] + ['.'] + (s[a + 1..b] + ['.'] + s[b + 1..c])
  {
  }

  /** What `TripleEnd` reports is a version triple. */
  lemma TripleEndIsTriple(s: string, i: nat)
    requires i <= |s| && TripleEnd(s, i).Some?
    ensures IsVersionTriple(s[i..TripleEnd(s, i).value])
  {
    var a := i + DigitRun(s, i);
    var b := a + 1 + DigitRun(s, a + 1);
    var c := b + 1 + DigitRun(s, b + 1);
    assert c == TripleEnd(s, i).value;
    DigitRunIsMaximal(s, i);
    DigitRunIsMaximal(s, a + 1);
    DigitRunIsMaximal(s, b + 1);
    SliceAtDots(s, i, a, b, c);
    TripleOfParts(s[i..a], s[a + 1..b], s[b + 1..c]);
  }

  lemma {:induction false} DigitRunExact(s: string, i: nat, n: nat)
    requires i + n <= |s|
    requires forall k :: i <= k < i + n ==> IsDigit(s[k])
    requires i + n == |s| || !IsDigit(s[i + n])
    ensures DigitRun(s, i) == n
    decreases n
  {
    if n > 0 {
      DigitRunExact(s, i + 1, n - 1);
    }
  }

  /** A numeral written at `j` and followed by a non-digit, or by nothing, is the run there. */
  lemma RunOfNumeral(s: string, j: nat, p: string)
    requires IsNumeral(p) && j + |p| <= |s| && s[j..j + |p|] == p
    requires j + |p| == |s| || !IsDigit(s[j + |p|])
    ensures DigitRun(s, j) == |p|
  {
    forall k | j <= k < j + |p|
      ensures IsDigit(s[k])
    {
      assert s[k] == s[j..j + |p|][k - j];
    }
    DigitRunExact(s, j, |p|);
  }

  /** Where the pieces of `p1.p2.p3` sit. */
  lemma TripleLayout(p1: string, p2: string, p3: string)
    ensures var v := p1 + ['.'] + (p2 + ['.'] + p3);
            && v[..|p1|] == p1 && v[|p1|] == '.'
            && v[|p1| + 1..|p1| + 1 + |p2|] == p2 && v[|p1| + 1 + |p2|] == '.'
            && v[|p1| + 2 + |p2|..] == p3
  {
  }

  lemma SubSlice(s: string, i: nat, v: string, x: nat, y: nat)
    requires i + |v| <= |s| && s[i..i + |v|] == v && x <= y <= |v|
    ensures s[i + x..i + y] == v[x..y]
  {
    forall k | 0 <= k < y - x
      ensures s[i + x..i + y][k] == v[x..y][k]
    {
      assert s[i + x + k] == s[i..i + |v|][x + k];
    }
  }

  /** A numeral inside a string `v` written at `i`, ended by a dot of `v` or by the end of `v`
      and then a non-digit, is a whole digit run. */
  lemma RunInside(s: string, i: nat, v: string, off: nat, p: string)
    requires i + |v| <= |s| && s[i..i + |v|] == v
    requires IsNumeral(p) && off + |p| <= |v| && v[off..off + |p|] == p
    requires off + |p| < |v| ==> v[off + |p|] == '.'
    requires off + |p| == |v| ==> i + |v| == |s| || !IsDigit(s[i + |v|])
    ensures DigitRun(s, i + off) == |p|
    ensures off + |p| < |v| ==> s[i + off + |p|] == '.'
  {
    SubSlice(s, i, v, off, off + |p|);
    if off + |p| < |v| {
      assert s[i + off + |p|] == s[i..i + |v|][off + |p|];
    }
    assert !IsDigit('.');
    RunOfNumeral(s, i + off, p);
  }

  /** Three digit runs separated by dots are what the pattern matches. */
  lemma TripleEndFromRuns(s: string, i: nat, n1: nat, n2: nat, n3: nat)
    requires i <= |s| && 0 < n1 && 0 < n2 && 0 < n3
    requires DigitRun(s, i) == n1 && i + n1 < |s| && s[i + n1] == '.'
    requires DigitRun(s, i + n1 + 1) == n2 && i + n1 + 1 + n2 < |s| && s[i + n1 + 1 + n2] == '.'
    requires DigitRun(s, i + n1 + n2 + 2) == n3
    ensures TripleEnd(s, i) == Some(i + n1 + n2 + n3 + 2)
  {
  }

  /** The three runs of a version triple written at `i` and not followed by a digit. */
  lemma RunsOfTriple(s: string, i: nat, p1: string, p2: string, p3: string)
    requires IsNumeral(p1) && IsNumeral(p2) && IsNumeral(p3)
    requires var v := p1 + ['.'] + (p2 + ['.'] + p3);
             i + |v| <= |s| && s[i..i + |v|] == v && (i + |v| == |s| || !IsDigit(s[i + |v|]))
    ensures DigitRun(s, i) == |p1| && i + |p1| < |s| && s[i + |p1|] == '.'
    ensures DigitRun(s, i + |p1| + 1) == |p2| && i + |p1| + 1 + |p2| < |s| && s[i + |p1| + 1 + |p2|] == '.'
    ensures DigitRun(s, i + |p1| + |p2| + 2) == |p3|
  {
    var v := p1 + ['.'] + (p2 + ['.'] + p3);
    TripleLayout(p1, p2, p3);
    RunInside(s, i, v, 0, p1);
    RunInside(s, i, v, |p1| + 1, p2);
    RunInside(s, i, v, |p1| + 2 + |p2|, p3);
  }

  /** A version triple written at `i` and not followed by a digit is matched there in full. */
  lemma TripleEndOfTriple(s: string, i: nat, p1: string, p2: string, p3: string)
    requires IsNumeral(p1) && IsNumeral(p2) && IsNumeral(p3)
    requires var v := p1 + ['.'] + (p2 + ['.'] + p3);
             i + |v| <= |s| && s[i..i + |v|] == v && (i + |v| == |s| || !IsDigit(s[i + |v|]))
    ensures TripleEnd(s, i) == Some(i + |p1| + |p2| + |p3| + 2)
  {
    RunsOfTriple(s, i, p1, p2, p3);
    TripleEndFromRuns(s, i, |p1|, |p2|, |p3|);
  }

  /** `v` is written at `j` in the tag, is matched there, and no match starts earlier. */
  ghost predicate LeftmostMatchAt(tag: string, j: nat, v: string) {
    && j + |v| <= |tag| && tag[j..j + |v|] == v
    && TripleEnd(tag, j) == Some(j + |v|)
    && forall k :: 0 <= k < j ==> TripleEnd(tag, k).None?
  }

  /** The version read from a tag is the leftmost match of the pattern, whether or not a `V`
      precedes it, and there is none exactly when the pattern occurs nowhere in the tag. */
  lemma TagVersionIsLeftmostMatch(tag: string)
    ensures TagVersion(tag).None? <==> forall k :: 0 <= k <= |tag| ==> TripleEnd(tag, k).None?
    ensures TagVersion(tag).Some? ==> exists j :: LeftmostMatchAt(tag, j, TagVersion(tag).value)
  {
    SearchFindsLeftmostTriple(tag, 0);
    if SearchFrom(tag, 0).Some? {
      var (j, e) := SearchFrom(tag, 0).value;
      assert LeftmostMatchAt(tag, j, tag[j..e]);
    }
  }

  /** The version read from a tag is a version triple, so it starts with a digit and not with
      `V`, and it parses to a tuple of three numbers. */
  lemma TagVersionIsTriple(tag: string)
    ensures TagVersion(tag).Some? ==>
              IsVersionTriple(TagVersion(tag).value) && IsDigit(TagVersion(tag).value[0]) &&
              VersionTuple(TagVersion(tag).value).Some? && |VersionTuple(TagVersion(tag).value).value| == 3
  {
    if SearchFrom(tag, 0).Some? {
      var (j, e) := SearchFrom(tag, 0).value;
      SearchFindsLeftmostTriple(tag, 0);
      TripleEndIsTriple(tag, j);
      DigitRunIsMaximal(tag, j);
      TripleParses(tag[j..e]);
    }
  }

  /** A version triple parses to a tuple of three numbers. */
  lemma TripleParses(v: string)
    requires IsVersionTriple(v)
    ensures VersionTuple(v).Some? && |VersionTuple(v).value| == 3
  {
  }

  // ---------------------------------------------------------------------------
  // Fetching the latest release and deciding on an update

  /** What the release query gave: no answer at all (a timeout, a connection error, a body that
      is not JSON), or an HTTP status with the `tag_name` field of the body when it has one. */
  datatype Fetch = Unreachable | Response(status: int, tagName: Option<string>)

  /** A release: the version read from its tag, and the tag itself. */
  datatype Release = Release(version: string, tag: string)

  /** The latest release: found only in an HTTP 200 answer whose tag (`""` when the field is
      missing) names a version, and then it is that version with the full tag. */
  function LatestRelease(f: Fetch): (r: Option<Release>)
    ensures r.Some? ==> f.Response? && f.status == 200 && r.value.tag == f.tagName.GetOr("")
    ensures f.Response? && f.status == 200 && TagVersion(f.tagName.GetOr("")).Some? ==>
              r == Some(Release(TagVersion(f.tagName.GetOr("")).value, f.tagName.GetOr("")))
  {
    if f.Unreachable? || f.status != 200 then None
    else
      var tag := f.tagName.GetOr("");
      match TagVersion(tag)
      case None => None
      case Some(v) => Some(Release(v, tag))
  }

  /** A release that was found carries a version triple read from its tag, and a tag that is
      missing or names no version yields no release. */
  lemma LatestReleaseIsTriple(f: Fetch)
    ensures LatestRelease(f).Some? ==>
              IsVersionTriple(LatestRelease(f).value.version) &&
              TagVersion(LatestRelease(f).value.tag) == Some(LatestRelease(f).value.version)
    ensures f.Response? && f.status == 200 && TagVersion(f.tagName.GetOr("")).None? ==>
              LatestRelease(f).None?
  {
    if LatestRelease(f).Some? {
      TagVersionIsTriple(f.tagName.GetOr(""));
    }
  }

  /** What `is_update_available` returns: `(False, None, None)`, `(True, version, tag)`, or the
      `ValueError` that `version_tuple` raises on a version it cannot parse. */
  datatype UpdateCheck = NoUpdate | UpdateAvailable(version: string, tag: string) | MalformedVersion

  /** `is_update_available` given the current version string and the latest release. */
  function CheckUpdate(current: string, latest: Option<Release>): (r: UpdateCheck)
    ensures latest.None? ==> r == NoUpdate
    ensures r.UpdateAvailable? <==>
              && latest.Some? && latest.value.version != ""
              && VersionTuple(current).Some? && VersionTuple(latest.value.version).Some?
              && LexLess(VersionTuple(current).value, VersionTuple(latest.value.version).value)
    ensures r.UpdateAvailable? ==> r == UpdateAvailable(latest.value.version, latest.value.tag)
    ensures r == MalformedVersion <==>
              && latest.Some? && latest.value.version != ""
              && (VersionTuple(current).None? || VersionTuple(latest.value.version).None?)
  {
    if latest.None? || latest.value.version == "" then NoUpdate
    else
      match (VersionTuple(current), VersionTuple(latest.value.version))
      case (Some(c), Some(l)) =>
        if LexLess(c, l) then UpdateAvailable(latest.value.version, latest.value.tag) else NoUpdate
      case _ => MalformedVersion
  }

  /** An update is never offered for the installed version itself nor for an older one. */
  lemma OnlyNewerReleasesOffered(current: string, latest: Release)
    requires VersionTuple(current).Some? && VersionTuple(latest.version).Some?
    ensures VersionTuple(current) == VersionTuple(latest.version) ==>
              CheckUpdate(current, Some(latest)) == NoUpdate
    ensures LexLess(VersionTuple(latest.version).value, VersionTuple(current).value) ==>
              CheckUpdate(current, Some(latest)) == NoUpdate
  {
    LexLessIrreflexive(VersionTuple(current).value);
    LexLessAsymmetric(VersionTuple(latest.version).value, VersionTuple(current).value);
    assert latest.version != "" by {
      assert Split("", '.') == [""];
    }
  }

  /** The whole check, from the host's module list and the release query: it never fails on a
      version when the installed tuple is not empty, and offers the release exactly when its
      version is greater than the installed one. */
  lemma UpdateDecision(mods: seq<AddonInfo>, f: Fetch)
    requires |InstalledTuple(mods)| > 0
    ensures var r := CheckUpdate(AddonVersion(mods), LatestRelease(f));
            && r != MalformedVersion
            && (r.UpdateAvailable? <==>
                  LatestRelease(f).Some? &&
                  LexLess(InstalledTuple(mods), VersionTuple(LatestRelease(f).value.version).value))
  {
    AddonVersionParses(mods);
    if LatestRelease(f).Some? {
      var rel := LatestRelease(f).value;
      TagVersionIsTriple(rel.tag);
      LatestReleaseIsTriple(f);
      assert rel.version != "" by {
        assert Split("", '.') == [""];
      }
    }
  }

  // ---------------------------------------------------------------------------
  // Downloading

  /** The tag `download_and_install_update` uses: the given one, or "V" + version when it is
      missing or empty. */
  function DownloadTag(version: string, tag: Option<string>): (t: string)
    ensures t != ""
    ensures tag.Some? && tag.value != "" ==> t == tag.value
    ensures tag.None? || tag.value == "" ==> t == "V" + version
  {
    if tag.None? || tag.value == "" then "V" + version else tag.value
  }

  /** The address the archive is fetched from. */
  function DownloadUrl(tag: string): string {
    GitHubDownloadUrl + tag + ArchiveSuffix
  }

  /** Reads the tag back out of a download address. */
  function UrlTag(url: string): Option<string> {
    var p, s := |GitHubDownloadUrl|, |ArchiveSuffix|;
    if p + s <= |url| && url[..p] == GitHubDownloadUrl && url[|url| - s..] == ArchiveSuffix
    then Some(url[p..|url| - s])
    else None
  }

  /** The address is the fixed prefix, the tag and the archive name, in that order: the tag can
      be read back from it, so different tags give different addresses. */
  lemma DownloadUrlNamesTag(tag: string)
    ensures UrlTag(DownloadUrl(tag)) == Some(tag)
  {
  }

  /** The default tag names the release of the same version: the release pattern reads the
      version back out of it. */
  lemma DefaultTagNamesVersion(version: string, tag: Option<string>)
    requires IsVersionTriple(version)
    ensures tag.None? || tag == Some("") ==> TagVersion(DownloadTag(version, tag)) == Some(version)
  {
    var tag := "V" + version;
    assert tag[1..1 + |version|] == version;
    var p1, p2, p3 := PartsOfTriple(version);
    TripleEndOfTriple(tag, 1, p1, p2, p3);
    assert SearchFrom(tag, 0) == Some((1, 1 + |version|));
  }

  // ---------------------------------------------------------------------------
  // Unpacking: which archive entries are written, and where

  /** An archive entry and its path relative to the add-on directory. */
  datatype Extraction = Extraction(entry: string, relPath: string)

  predicate StartsWith(s: string, prefix: string) {
    |prefix| <= |s| && s[..|prefix|] == prefix
  }

  /** An entry is written when it lies under the root entry, is not the root itself and does
      not name a directory. */
  predicate IsExtracted(entry: string, root: string) {
    StartsWith(entry, root) && entry != root && !(|entry| > 0 && entry[|entry| - 1] == '/')
  }

  /** The entries written, in archive order, with the root prefix cut off. */
  function Planned(names: seq<string>, root: string): seq<Extraction> {
    if names == [] then []
    else
      var f := names[|names| - 1];
      Planned(names[..|names| - 1], root) +
        (if IsExtracted(f, root) then [Extraction(f, f[|root|..])] else [])
  }

  /** The loop over `zip_ref.namelist()` in `download_thread`, without the writes: the root is
      the first entry, and an empty archive fails (`namelist()[0]` raises). */
  method PlanExtraction(names: seq<string>) returns (plan: Option<seq<Extraction>>)
    ensures plan.None? <==> names == []
    ensures plan.Some? ==> plan.value == Planned(names, names[0])
  {
    if |names| == 0 {
      return None;
    }
    var root := names[0];
    var acc: seq<Extraction> := [];
    var i := 0;
    while i < |names|
      invariant 0 <= i <= |names|
      invariant acc == Planned(names[..i], root)
    {
      var file := names[i];
      assert names[..i + 1][..i] == names[..i];
      if |root| <= |file| && file[..|root|] == root {
        if file == root || (|file| > 0 && file[|file| - 1] == '/') {
        } else {
          acc := acc + [Extraction(file, file[|root|..])];
        }
      }
      i := i + 1;
    }
    assert names[..i] == names;
    return Some(acc);
  }

  /** An entry is planned exactly when it is in the archive and lies strictly under the root
      without naming a directory; its path is then the entry with the root cut off, so the root
      followed by the path is the entry again, and the path is never empty. */
  lemma {:induction false} PlannedExactly(names: seq<string>, root: string, x: Extraction)
    ensures x in Planned(names, root) <==>
              x.entry in names && IsExtracted(x.entry, root) && x.relPath == x.entry[|root|..]
    ensures x in Planned(names, root) ==> root + x.relPath == x.entry && x.relPath != ""
  {
    if names != [] {
      var init := names[..|names| - 1];
      PlannedExactly(init, root, x);
      assert names == init + [names[|names| - 1]];
    }
    if x in Planned(names, root) {
      assert x.entry == x.entry[..|root|] + x.entry[|root|..];
    }
  }
}
