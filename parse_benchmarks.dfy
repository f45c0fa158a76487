/** benches/parse_benchmarks.py: extraction of the file size and the three
    timings from a benchmark log, and the table of all parsed logs sorted by
    file size. Each `re.search` is modelled by a scanning function together
    with a declarative description of what the regular expression matches,
    and a lemma that the scan finds the match Python's leftmost, greedy,
    backtracking search returns. */
module ParseBenchmarks {
  import opened Results

  // ---------------------------------------------------------------------------
  // Character classes

  /** `\d`, restricted to the ASCII digits. */
  predicate IsDigit(c: char) { '0' <= c <= '9' }

  /** `\s` on a `str` pattern: the characters for which `str.isspace()` holds. */
  predicate IsSpace(c: char)
  {
    '\t' <= c <= '\r' || '\U{1c}' <= c <= ' ' || c == '\U{85}' || c == '\U{a0}' || c == '\U{1680}'
    || '\U{2000}' <= c <= '\U{200a}' || c == '\U{2028}' || c == '\U{2029}' || c == '\U{202f}'
    || c == '\U{205f}' || c == '\U{3000}'
  }

  // ---------------------------------------------------------------------------
  // parse_time: re.search(r'(\d+\.?\d*)s', time_str), then float(group 1)

  /** The end of the run of digits starting at i. */
  function DigitsEnd(s: string, i: nat): (j: nat)
    requires i <= |s|
    ensures i <= j <= |s| && (j == |s| || !IsDigit(s[j]))
    ensures forall t :: i <= t < j ==> IsDigit(s[t])
    decreases |s| - i
  {
    if i == |s| || !IsDigit(s[i]) then i else DigitsEnd(s, i + 1)
  }

  /** `s[p..q]` matches `\d+\.?\d*` and is followed by `s`: a digit, then digits
      and at most one dot. */
  predicate TimeToken(s: string, p: int, q: int)
  {
    0 <= p < q < |s| && IsDigit(s[p]) && s[q] == 's'
    && (forall t :: p <= t < q ==> IsDigit(s[t]) || s[t] == '.')
    && (forall t, u :: p <= t < u < q && s[t] == '.' ==> s[u] != '.')
  }

  /** Matching at position p with backtracking: the greedy `\d+` is followed
      either by a dot, the greedy `\d*` and an `s`, or directly by an `s`;
      no shorter choice can succeed where these fail. Returns the position
      of the `s`. */
  function MatchTimeAt(s: string, p: nat): Option<nat>
    requires p <= |s|
  {
    if p == |s| || !IsDigit(s[p]) then None
    else
      var e1 := DigitsEnd(s, p);
      if e1 < |s| && s[e1] == '.' then
        var e2 := DigitsEnd(s, e1 + 1);
        if e2 < |s| && s[e2] == 's' then Some(e2) else None
      else if e1 < |s| && s[e1] == 's' then Some(e1)
      else None
  }

  /** The match at p is the one and only token starting at p. */
  lemma MatchTimeAtSpec(s: string, p: nat)
    requires p <= |s|
    ensures forall q :: TimeToken(s, p, q) <==> MatchTimeAt(s, p) == Some(q)
  {
    forall q | TimeToken(s, p, q)
      ensures MatchTimeAt(s, p) == Some(q)
    {
      var e1 := DigitsEnd(s, p);
      if e1 < q {
        assert s[e1] == '.';
        var e2 := DigitsEnd(s, e1 + 1);
      }
    }
  }

  /** The leftmost position p >= from at which the time regex matches. */
  function FirstTimeMatch(s: string, from: nat): (r: Option<(nat, nat)>)
    requires from <= |s|
    ensures r.Some? ==> from <= r.value.0 < r.value.1 < |s|
    decreases |s| - from
  {
    if from == |s| then None
    else match MatchTimeAt(s, from)
      case Some(q) => Some((from, q))
      case None => FirstTimeMatch(s, from + 1)
  }

  /** `re.search` finds the leftmost token, and nothing exactly when the
      string holds no token at or after `from`. */
  lemma {:induction false} FirstTimeMatchSpec(s: string, from: nat)
    requires from <= |s|
    ensures FirstTimeMatch(s, from).None? <==> forall p, q :: from <= p ==> !TimeToken(s, p, q)
    ensures FirstTimeMatch(s, from).Some? ==>
              var (p, q) := FirstTimeMatch(s, from).value;
              from <= p && TimeToken(s, p, q) && forall p', q' :: from <= p' < p ==> !TimeToken(s, p', q')
    decreases |s| - from
  {
    MatchTimeAtSpec(s, from);
    if from < |s| && MatchTimeAt(s, from).None? {
      FirstTimeMatchSpec(s, from + 1);
    }
  }

  function DigitValue(c: char): nat
  {
    if IsDigit(c) then (c as int) - ('0' as int) else 0
  }

  /** The number a run of decimal digits denotes. */
  function DigitsValue(ds: string): nat
  {
    if |ds| == 0 then 0 else 10 * DigitsValue(ds[..|ds| - 1]) + DigitValue(ds[|ds| - 1])
  }

  function Pow10(n: nat): (p: nat)
    ensures p >= 1
  {
    if n == 0 then 1 else 10 * Pow10(n - 1)
  }

  /** The position of the first dot at or after i, or |w|. */
  function DotIndex(w: string, i: nat): (j: nat)
    requires i <= |w|
    ensures i <= j <= |w| && (j < |w| ==> w[j] == '.')
    ensures forall t :: i <= t < j ==> w[t] != '.'
    decreases |w| - i
  {
    if i == |w| || w[i] == '.' then i else DotIndex(w, i + 1)
  }

  /** `float(w)` for w of the form `\d+\.?\d*`, as an exact rational:
      the integer part plus the fraction digits over a power of ten. */
  function DecimalValue(w: string): real
  {
    var i := DotIndex(w, 0);
    if i == |w| then DigitsValue(w) as real
    else DigitsValue(w[..i]) as real + DigitsValue(w[i + 1..]) as real / Pow10(|w| - i - 1) as real
  }

  /** `parse_time`: the number in the leftmost token, or `None` when the string
      holds none. */
  function ParseTime(s: string): Option<real>
  {
    match FirstTimeMatch(s, 0)
    case None => None
    case Some((p, q)) => Some(DecimalValue(s[p..q]))
  }

  /** `parse_time` fails exactly when there is no token, and otherwise reads the
      leftmost one. */
  lemma ParseTimeSpec(s: string)
    ensures ParseTime(s).None? <==> forall p, q :: !TimeToken(s, p, q)
    ensures ParseTime(s).Some? ==>
              var (p, q) := FirstTimeMatch(s, 0).value;
              TimeToken(s, p, q) && ParseTime(s).value == DecimalValue(s[p..q])
              && forall p', q' :: p' < p ==> !TimeToken(s, p', q')
  {
    FirstTimeMatchSpec(s, 0);
  }

  /** The docstring's example: `'7.212863475s'` is 7.212863475 seconds. */
  lemma ParseTimeExample()
    ensures ParseTime("7.212863475s") == Some(7.212863475)
  {
    var s := "7.212863475s";
    TimeExampleMatch();
    assert s[0..11] == "7.212863475";
    TimeExampleValue();
  }

  lemma TimeExampleMatch()
    ensures FirstTimeMatch("7.212863475s", 0) == Some((0, 11))
  {
    var s := "7.212863475s";
    assert DigitsEnd(s, 0) == 1;
    assert DigitsEnd(s, 2) == 11;
  }

  lemma TimeExampleValue()
    ensures DecimalValue("7.212863475") == 7.212863475
  {
    var w := "7.212863475";
    assert DotIndex(w, 0) == 1;
    assert w[..1] == "7" && w[2..] == "212863475";
    assert DigitsValue("7") == 7;
    DigitsValueExample();
    assert Pow10(9) == 1000000000 by {
      assert Pow10(3) == 1000;
      assert Pow10(6) == 1000000;
    }
  }

  lemma DigitsValueExample()
    ensures DigitsValue("212863475") == 212863475
  {
    var w := "212863475";
    assert DigitsValue(w[..1]) == 2;
    assert DigitsValue(w[..2]) == 21 by { assert w[..2][..1] == w[..1]; }
    assert DigitsValue(w[..3]) == 212 by { assert w[..3][..2] == w[..2]; }
    assert DigitsValue(w[..4]) == 2128 by { assert w[..4][..3] == w[..3]; }
    assert DigitsValue(w[..5]) == 21286 by { assert w[..5][..4] == w[..4]; }
    assert DigitsValue(w[..6]) == 212863 by { assert w[..6][..5] == w[..5]; }
    assert DigitsValue(w[..7]) == 2128634 by { assert w[..7][..6] == w[..6]; }
    assert DigitsValue(w[..8]) == 21286347 by { assert w[..8][..7] == w[..7]; }
    assert w[..9] == w && w[..9][..8] == w[..8];
  }

  /** Text before the number is skipped: the search is not anchored. */
  lemma ParseTimeSkipsPrefix()
    ensures ParseTime("t=12.s") == Some(12.0)
  {
    var s := "t=12.s";
    assert MatchTimeAt(s, 0) == None && MatchTimeAt(s, 1) == None;
    assert DigitsEnd(s, 2) == 4 && DigitsEnd(s, 5) == 5;
    assert MatchTimeAt(s, 2) == Some(5);
    assert FirstTimeMatch(s, 0) == Some((2, 5));
    var w := s[2..5];
    assert w == "12.";
    assert DotIndex(w, 0) == 2 && w[..2] == "12" && w[3..] == "";
  }

  /** A duration below one second, which `{:?}` prints with the unit `ms`,
      holds no token: the digits are followed by `m`, not `s`. */
  lemma ParseTimeRejectsMilliseconds()
    ensures ParseTime("812.3ms") == None
  {
    var s := "812.3ms";
    assert forall p, q :: !TimeToken(s, p, q) by {
      forall p, q
        ensures !TimeToken(s, p, q)
      {
        if 0 <= p < q < |s| && s[q] == 's' {
          assert q == 6 && p <= 5 && s[5] == 'm';
        }
      }
    }
    ParseTimeSpec(s);
  }

  // ---------------------------------------------------------------------------
  // parse_file_size

  /** `parse_file_size`: `humanfriendly.parse_size` (a parameter, `None` where
      it raises) in bytes, floor-divided by 1024. */
  function ParseFileSize(parseSize: string -> Option<int>, s: string): (r: Option<int>)
    ensures r.None? <==> parseSize(s).None?
    ensures r.Some? ==> r.value * 1024 <= parseSize(s).value < (r.value + 1) * 1024
  {
    match parseSize(s)
    case None => None
    case Some(bytes) => Some(bytes / 1024)
  }

  // ---------------------------------------------------------------------------
  // re.search(r'<Label>:\s*(.+)', content).group(1)

  predicate OccursAt(s: string, name: string, p: int)
  {
    0 <= p && p + |name| <= |s| && s[p..p + |name|] == name
  }

  /** The end of the whitespace run starting at i (greedy `\s*`). */
  function SkipSpace(s: string, i: nat): (k: nat)
    requires i <= |s|
    ensures i <= k <= |s| && (k == |s| || !IsSpace(s[k]))
    ensures forall t :: i <= t < k ==> IsSpace(s[t])
    decreases |s| - i
  {
    if i == |s| || !IsSpace(s[i]) then i else SkipSpace(s, i + 1)
  }

  /** The end of the line containing i (greedy `.+`, which stops at a newline). */
  function LineEnd(s: string, i: nat): (e: nat)
    requires i <= |s|
    ensures i <= e <= |s| && (e == |s| || s[e] == '\n')
    ensures forall t :: i <= t < e ==> s[t] != '\n'
    decreases |s| - i
  {
    if i == |s| || s[i] == '\n' then i else LineEnd(s, i + 1)
  }

  /** The last position in [j, k) not holding a newline. */
  function LastNonNewline(s: string, j: nat, k: nat): (r: Option<nat>)
    requires j <= k <= |s|
    ensures r.None? ==> forall t :: j <= t < k ==> s[t] == '\n'
    ensures r.Some? ==> j <= r.value < k && s[r.value] != '\n'
                        && forall t :: r.value < t < k ==> s[t] == '\n'
    decreases k - j
  {
    if k == j then None
    else if s[k - 1] != '\n' then Some(k - 1)
    else LastNonNewline(s, j, k - 1)
  }

  /** `\s*(.+)` matches from j with `\s*` spanning [j, k) and the group [k, e):
      at least one character, no newline, and as long as the line allows. */
  predicate FieldMatch(s: string, j: int, k: int, e: int)
  {
    0 <= j <= k < e <= |s|
    && (forall t :: j <= t < k ==> IsSpace(s[t]))
    && (forall t :: k <= t < e ==> s[t] != '\n')
    && (e == |s| || s[e] == '\n')
  }

  /** `\s*(.+)` at j with backtracking: the greedy `\s*` when a character is
      left after it; otherwise `\s*` gives back characters from the end until
      `.+` can start on one that is not a newline. */
  function CaptureAt(s: string, j: nat): (r: Option<(nat, nat)>)
    requires j <= |s|
    ensures r.Some? ==> j <= r.value.0 < r.value.1 <= |s|
  {
    var k := SkipSpace(s, j);
    if k < |s| then Some((k, LineEnd(s, k)))
    else match LastNonNewline(s, j, k)
      case None => None
      case Some(i) => Some((i, LineEnd(s, i)))
  }

  /** The capture is a match, the one with the longest `\s*`, and there is no
      match exactly when the capture fails. */
  lemma CaptureAtSpec(s: string, j: nat)
    requires j <= |s|
    ensures CaptureAt(s, j).None? <==> forall k, e :: !FieldMatch(s, j, k, e)
    ensures CaptureAt(s, j).Some? ==>
              var (k, e) := CaptureAt(s, j).value;
              FieldMatch(s, j, k, e) && forall k', e' :: k < k' && FieldMatch(s, j, k', e') ==> false
  {
    var k0 := SkipSpace(s, j);
    if k0 < |s| {
      assert FieldMatch(s, j, k0, LineEnd(s, k0));
    } else {
      var r := LastNonNewline(s, j, k0);
      if r.None? {
        forall k, e
          ensures !FieldMatch(s, j, k, e)
        {
          if j <= k < |s| {
            assert s[k] == '\n';
          }
        }
      } else {
        assert FieldMatch(s, j, r.value, LineEnd(s, r.value));
        forall k', e' | r.value < k'
          ensures !FieldMatch(s, j, k', e')
        {
          if k' < |s| {
            assert s[k'] == '\n';
          }
        }
      }
    }
  }

  /** A match of `<Label>\s*(.+)` starting at p. */
  predicate LabelMatch(s: string, name: string, p: int, k: int, e: int)
  {
    OccursAt(s, name, p) && FieldMatch(s, p + |name|, k, e)
  }

  /** The attempt at position p: the label, then `\s*(.+)`. */
  function MatchAt(s: string, name: string, p: nat): (r: Option<(nat, nat)>)
    ensures r.Some? ==> p + |name| <= r.value.0 < r.value.1 <= |s|
  {
    if OccursAt(s, name, p) then CaptureAt(s, p + |name|) else None
  }

  lemma MatchAtSpec(s: string, name: string, p: nat)
    ensures MatchAt(s, name, p).None? <==> forall k, e :: !LabelMatch(s, name, p, k, e)
    ensures MatchAt(s, name, p).Some? ==>
              var (k, e) := MatchAt(s, name, p).value;
              LabelMatch(s, name, p, k, e) && forall k', e' :: k < k' ==> !LabelMatch(s, name, p, k', e')
  {
    var j := p + |name|;
    if OccursAt(s, name, p) {
      CaptureAtSpec(s, j);
      assert forall k, e :: LabelMatch(s, name, p, k, e) == FieldMatch(s, j, k, e);
    }
  }

  /** `re.search` for `<Label>\s*(.+)`: the attempts at from, from + 1, ...
      in turn. Returns the start of the match and the group's span. */
  function Search(s: string, name: string, from: nat): (r: Option<(nat, nat, nat)>)
    ensures r.Some? ==> from <= r.value.0 && r.value.1 < r.value.2 <= |s|
    decreases |s| + 1 - from
  {
    if from > |s| then None
    else match MatchAt(s, name, from)
      case Some((k, e)) => Some((from, k, e))
      case None => Search(s, name, from + 1)
  }

  /** `re.search` returns the leftmost match, at that position the one with
      the longest `\s*`, and `None` exactly when there is no match. */
  lemma {:induction false} SearchSpec(s: string, name: string, from: nat)
    ensures Search(s, name, from).None? <==> forall p, k, e :: from <= p ==> !LabelMatch(s, name, p, k, e)
    ensures Search(s, name, from).Some? ==>
              var (p, k, e) := Search(s, name, from).value;
              LabelMatch(s, name, p, k, e)
              && (forall p', k', e' :: from <= p' < p ==> !LabelMatch(s, name, p', k', e'))
              && (forall k', e' :: k < k' ==> !LabelMatch(s, name, p, k', e'))
    decreases |s| + 1 - from
  {
    if from <= |s| {
      MatchAtSpec(s, name, from);
      if MatchAt(s, name, from).None? {
        SearchSpec(s, name, from + 1);
        var r := Search(s, name, from + 1);
        assert Search(s, name, from) == r;
        if r.Some? {
          var (p, k, e) := r.value;
          forall p', k', e' | from <= p' < p
            ensures !LabelMatch(s, name, p', k', e')
          {
            if p' == from {
              assert MatchAt(s, name, from).None?;
            }
          }
        }
      }
    } else {
      forall p, k, e | from <= p
        ensures !LabelMatch(s, name, p, k, e)
      {
        assert !OccursAt(s, name, p);
      }
    }
  }

  /** The text of group 1, if the pattern matches. */
  function SearchField(s: string, name: string): Option<string>
  {
    match Search(s, name, 0)
    case None => None
    case Some((p, k, e)) => Some(s[k..e])
  }

  /** The whitespace after the name may include line breaks; the group then
      runs to the end of the next non-blank line. */
  lemma SearchFieldCrossesNewline()
    ensures SearchField("File size:\n 8 MiB", "File size:") == Some("8 MiB")
  {
    var s := "File size:\n 8 MiB";
    assert s[0..10] == "File size:";
    assert SkipSpace(s, 10) == 12;
    assert LineEnd(s, 12) == 17;
    assert s[12..17] == "8 MiB";
  }

  // ---------------------------------------------------------------------------
  // parse_benchmark_file

  /** The dictionary `parse_benchmark_file` returns. */
  datatype Record = Record(fileSizeKib: int, initializationTime: real, fk20Time: real, miningTime: real)

  function SizeField(content: string, parseSize: string -> Option<int>): Option<int>
  {
    match SearchField(content, "File size:")
    case None => None
    case Some(t) => ParseFileSize(parseSize, t)
  }

  function TimeField(content: string, name: string): Option<real>
  {
    match SearchField(content, name)
    case None => None
    case Some(t) => ParseTime(t)
  }

  /** Python truthiness of an `Optional[int]` and an `Optional[float]`. */
  predicate TruthyInt(v: Option<int>) { v.Some? && v.value != 0 }
  predicate TruthyReal(v: Option<real>) { v.Some? && v.value != 0.0 }

  /** `parse_benchmark_file` on the file's content: each field in turn, stopping
      at the first that is missing or falsy. */
  function ParseBenchmarkFile(content: string, parseSize: string -> Option<int>): Option<Record>
  {
    var size := SizeField(content, parseSize);
    if !TruthyInt(size) then None
    else
      var init := TimeField(content, "Initialization time:");
      if !TruthyReal(init) then None
      else
        var fk20 := TimeField(content, "FK20 time:");
        if !TruthyReal(fk20) then None
        else
          var proving := TimeField(content, "Proving time:");
          if !TruthyReal(proving) then None
          else Some(Record(size.value, init.value, fk20.value, proving.value - fk20.value))
  }

  /** A record is produced exactly when all four fields parse to non-zero
      values; it holds the size, the initialisation and FK20 times, and the
      mining time as proving time minus FK20 time. */
  lemma ParseBenchmarkFileSpec(content: string, parseSize: string -> Option<int>)
    ensures var r := ParseBenchmarkFile(content, parseSize);
            var size := SizeField(content, parseSize);
            var init := TimeField(content, "Initialization time:");
            var fk20 := TimeField(content, "FK20 time:");
            var proving := TimeField(content, "Proving time:");
            && (r.Some? <==> TruthyInt(size) && TruthyReal(init) && TruthyReal(fk20) && TruthyReal(proving))
            && (r.Some? ==>
                  r.value.fileSizeKib == size.value && r.value.fileSizeKib != 0
                  && r.value.initializationTime == init.value
                  && r.value.fk20Time == fk20.value
                  && r.value.miningTime + r.value.fk20Time == proving.value)
  {
  }

  /** A file in which one of the four labels is followed by no value yields
      no record. */
  lemma MissingFieldRejected(content: string, parseSize: string -> Option<int>, name: string)
    requires name in {"File size:", "Initialization time:", "FK20 time:", "Proving time:"}
    requires forall p, k, e :: !LabelMatch(content, name, p, k, e)
    ensures ParseBenchmarkFile(content, parseSize) == None
  {
    SearchSpec(content, name, 0);
  }

  /** A size below 1 KiB floors to 0 KiB, which is falsy, so the file is rejected. */
  lemma SmallFileRejected(content: string, parseSize: string -> Option<int>, t: string)
    requires SearchField(content, "File size:") == Some(t)
    requires parseSize(t).Some? && 0 <= parseSize(t).value < 1024
    ensures ParseBenchmarkFile(content, parseSize) == None
  {
  }

  /** A time of zero seconds is falsy too. */
  lemma ZeroTimeRejected(content: string, parseSize: string -> Option<int>, name: string)
    requires name in {"Initialization time:", "FK20 time:", "Proving time:"}
    requires TimeField(content, name) == Some(0.0)
    ensures ParseBenchmarkFile(content, parseSize) == None
  {
  }

  // ---------------------------------------------------------------------------
  // main: keep the parsed files, sort by file size

  /** The results of `parse` that are not `None`, in input order. */
  function Kept<T>(xs: seq<string>, parse: string -> Option<T>): (rs: seq<T>)
    ensures |rs| <= |xs|
  {
    if |xs| == 0 then []
    else
      Kept(xs[..|xs| - 1], parse)
        + match parse(xs[|xs| - 1]) case None => [] case Some(r) => [r]
  }

  lemma {:induction false} KeptSpec<T>(xs: seq<string>, parse: string -> Option<T>)
    ensures forall r :: r in Kept(xs, parse) <==> exists i :: 0 <= i < |xs| && parse(xs[i]) == Some(r)
    ensures Kept(xs, parse) == [] <==> forall i :: 0 <= i < |xs| ==> parse(xs[i]).None?
  {
    if |xs| > 0 {
      var n := |xs| - 1;
      var init := xs[..n];
      KeptSpec(init, parse);
      assert forall i :: 0 <= i < n ==> init[i] == xs[i];
      forall r
        ensures r in Kept(xs, parse) <==> exists i :: 0 <= i < |xs| && parse(xs[i]) == Some(r)
      {
        if parse(xs[n]) == Some(r) {
          assert r in Kept(xs, parse);
        }
        if r in Kept(init, parse) {
          var i :| 0 <= i < n && parse(init[i]) == Some(r);
          assert parse(xs[i]) == Some(r);
        }
      }
    }
  }

  function ParseWith(parseSize: string -> Option<int>): string -> Option<Record>
  {
    (content: string) => ParseBenchmarkFile(content, parseSize)
  }

  /** The records of the files that parse, in file order. */
  function Parsed(files: seq<string>, parseSize: string -> Option<int>): seq<Record>
  {
    Kept(files, ParseWith(parseSize))
  }

  /** A record is kept exactly when some file parses to it. */
  lemma ParsedMembers(files: seq<string>, parseSize: string -> Option<int>, r: Record)
    ensures r in Parsed(files, parseSize) <==>
              exists i :: 0 <= i < |files| && ParseBenchmarkFile(files[i], parseSize) == Some(r)
  {
    var parse := ParseWith(parseSize);
    KeptSpec(files, parse);
    if r in Parsed(files, parseSize) {
      var i :| 0 <= i < |files| && parse(files[i]) == Some(r);
      assert ParseBenchmarkFile(files[i], parseSize) == Some(r);
    }
    if exists i :: 0 <= i < |files| && ParseBenchmarkFile(files[i], parseSize) == Some(r) {
      var i :| 0 <= i < |files| && ParseBenchmarkFile(files[i], parseSize) == Some(r);
      assert parse(files[i]) == Some(r);
    }
  }

  /** Nothing is kept exactly when no file parses. */
  lemma ParsedEmpty(files: seq<string>, parseSize: string -> Option<int>)
    ensures Parsed(files, parseSize) == [] <==>
              forall i :: 0 <= i < |files| ==> ParseBenchmarkFile(files[i], parseSize).None?
  {
    var parse := ParseWith(parseSize);
    KeptSpec(files, parse);
    assert forall i :: 0 <= i < |files| ==> parse(files[i]) == ParseBenchmarkFile(files[i], parseSize);
  }

  predicate SortedBySize(rs: seq<Record>)
  {
    forall i, j :: 0 <= i < j < |rs| ==> rs[i].fileSizeKib <= rs[j].fileSizeKib
  }

  /** Insert r before the first record of larger size. */
  function Insert(r: Record, rs: seq<Record>): seq<Record>
  {
    if |rs| == 0 || r.fileSizeKib <= rs[0].fileSizeKib then [r] + rs
    else [rs[0]] + Insert(r, rs[1..])
  }

  /** Inserting adds r and keeps every record already there. */
  lemma {:induction false} InsertContents(r: Record, rs: seq<Record>)
    ensures multiset(Insert(r, rs)) == multiset(rs) + multiset{r}
  {
    if |rs| > 0 && r.fileSizeKib > rs[0].fileSizeKib {
      InsertContents(r, rs[1..]);
      assert rs == [rs[0]] + rs[1..];
    }
  }

  /** Inserting into a sorted sequence keeps it sorted. */
  lemma {:induction false} InsertSorted(r: Record, rs: seq<Record>)
    requires SortedBySize(rs)
    ensures SortedBySize(Insert(r, rs))
    ensures |Insert(r, rs)| == |rs| + 1
    ensures Insert(r, rs)[0] == r || Insert(r, rs)[0] == rs[0]
  {
    if |rs| > 0 && r.fileSizeKib > rs[0].fileSizeKib {
      InsertSorted(r, rs[1..]);
    }
  }

  /** `df.sort_values('file_size_kib')`, as an insertion sort. */
  function SortBySize(rs: seq<Record>): seq<Record>
  {
    if |rs| == 0 then [] else Insert(rs[0], SortBySize(rs[1..]))
  }

  /** Sorting orders the records by ascending size and keeps every record. */
  lemma {:induction false} SortBySizeSpec(rs: seq<Record>)
    ensures SortedBySize(SortBySize(rs))
    ensures multiset(SortBySize(rs)) == multiset(rs)
  {
    if |rs| > 0 {
      SortBySizeSpec(rs[1..]);
      InsertSorted(rs[0], SortBySize(rs[1..]));
      InsertContents(rs[0], SortBySize(rs[1..]));
      assert rs == [rs[0]] + rs[1..];
    }
  }

  /** The logic of `main` on the contents of the `.txt` files in `res`: parse each
      file, keep the ones that parse, and return `None` when none does or the
      records sorted by file size. */
  method Summarize(files: seq<string>, parseSize: string -> Option<int>) returns (table: Option<seq<Record>>)
    ensures table.None? <==> forall i :: 0 <= i < |files| ==> ParseBenchmarkFile(files[i], parseSize).None?
    ensures table.Some? ==>
              SortedBySize(table.value) && multiset(table.value) == multiset(Parsed(files, parseSize))
  {
    ghost var parse := ParseWith(parseSize);
    var data: seq<Record> := [];
    for i := 0 to |files|
      invariant data == Kept(files[..i], parse)
    {
      var parsed := ParseBenchmarkFile(files[i], parseSize);
      assert parsed == parse(files[i]);
      assert files[..i + 1][..i] == files[..i];
      if parsed.Some? {
        data := data + [parsed.value];
      }
    }
    assert files[..|files|] == files;
    ParsedEmpty(files, parseSize);
    if data == [] {
      return None;
    }
    SortBySizeSpec(data);
    table := Some(SortBySize(data));
  }
}
