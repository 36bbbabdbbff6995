// Merging trajectory files (scripts/Merge_Trajectories.py): what one file must look like, which
// sets of files are accepted, and why the merged file is again of that form.
module Trajectories {
  import opened Wrappers

  /** A line as the script reads it. A header line is blank or starts with '#'; the value of a
      frame rate or geometry line is missing when the line lacks its separator. A line that starts with
      '#' may happen to hold a number in its second column, where records have their frame. */
  datatype Line =
    | Blank
    | Comment(column: Option<int>)
    | FrameRate(value: Option<string>, column: Option<int>)
    | Geometry(value: Option<string>, column: Option<int>)
    | Record(frame: int, text: string)
    | Malformed

  predicate IsHeader(l: Line) {
    !l.Record? && !l.Malformed?
  }

  predicate ReadableHeader(l: Line) {
    IsHeader(l) && (l.FrameRate? ==> l.value.Some?) && (l.Geometry? ==> l.value.Some?)
  }

  /** A parsed file; it has no span of frames if it has no records. */
  datatype Trajectory = Trajectory(frameRate: string, geometry: string, span: Option<(int, int)>, lines: seq<Line>)

  // ---- One file ----

  /** Every frame equals the one before it or follows it. */
  ghost predicate FrameRule(frames: seq<int>) {
    forall j {:trigger Stepped(frames, j)} :: 0 < j < |frames| ==> Stepped(frames, j)
  }

  predicate Stepped(frames: seq<int>, j: int)
    requires 0 < j < |frames|
  {
    frames[j] == frames[j - 1] || frames[j] == frames[j - 1] + 1
  }

  /** The lines that go into the merged file. */
  function Entries(lines: seq<Line>): (r: seq<Line>) {
    if lines == [] then []
    else
      var n := |lines| - 1;
      Entries(lines[..n]) + (if IsHeader(lines[n]) then [] else [lines[n]])
  }

  /** The frame that a line past the header counts for. Comments are not told apart there. */
  function Counted(l: Line): Option<int> {
    match l
    case Record(frame, _) => Some(frame)
    case Comment(column) => column
    case FrameRate(_, column) => column
    case Geometry(_, column) => column
    case _ => None
  }

  ghost predicate AllCounted(lines: seq<Line>) {
    forall l :: l in lines ==> Counted(l).Some?
  }

  ghost predicate AllRecords(lines: seq<Line>) {
    forall l :: l in lines ==> l.Record?
  }

  function FrameOf(l: Line): int {
    if Counted(l).Some? then Counted(l).value else 0
  }

  /** The frames of lines that all count for one. */
  function Frames(lines: seq<Line>): (r: seq<int>)
    ensures |r| == |lines| && forall i :: 0 <= i < |r| ==> r[i] == FrameOf(lines[i])
  {
    seq(|lines|, i requires 0 <= i < |lines| => FrameOf(lines[i]))
  }

  lemma FramesConcat(a: seq<Line>, b: seq<Line>)
    ensures Frames(a + b) == Frames(a) + Frames(b)
  {
  }

  /** The value of the last frame rate line. */
  function LastFrameRate(header: seq<Line>): Option<string> {
    if header == [] then None
    else
      var n := |header| - 1;
      if header[n].FrameRate? then header[n].value else LastFrameRate(header[..n])
  }

  function LastGeometry(header: seq<Line>): Option<string> {
    if header == [] then None
    else
      var n := |header| - 1;
      if header[n].Geometry? then header[n].value else LastGeometry(header[..n])
  }

  /** The header ends at line n, the first that is no header line. */
  ghost predicate HeaderEnds(lines: seq<Line>, n: nat) {
    && n <= |lines|
    && (forall l :: l in lines[..n] ==> ReadableHeader(l))
    && (n < |lines| ==> !IsHeader(lines[n]))
  }

  /** A correct file: a header with frame rate and geometry, then nothing but lines that count for a
      frame, leaving out none. */
  ghost predicate Correct(lines: seq<Line>, n: nat) {
    && HeaderEnds(lines, n)
    && LastFrameRate(lines[..n]).Some? && LastGeometry(lines[..n]).Some?
    && AllCounted(lines[n..]) && FrameRule(Frames(lines[n..]))
  }

  /** Line l counts for frame f: a record of that frame, or a line starting with '#' with that number in its
      second column. */
  ghost predicate CountsFor(l: Line, f: int) {
    (l.Record? && l.frame == f) || ((l.Comment? || l.FrameRate? || l.Geometry?) && l.column == Some(f))
  }

  ghost predicate CountsForSome(l: Line) {
    exists f :: CountsFor(l, f)
  }

  /** b counts for the same frame as a or the next. */
  ghost predicate GoesOn(a: Line, b: Line) {
    forall f, g :: CountsFor(a, f) && CountsFor(b, g) ==> g == f || g == f + 1
  }

  /** The rules in one place: a header of n lines in which every frame rate and geometry can be read and both
      occur; after it, a record, and lines that count for the same frame as the line before or the next. */
  ghost predicate FollowsRules(lines: seq<Line>, n: nat) {
    && n <= |lines|
    && (forall j :: 0 <= j < n ==>
          && !lines[j].Record? && !lines[j].Malformed?
          && (lines[j].FrameRate? || lines[j].Geometry? ==> lines[j].value.Some?))
    && (exists j :: 0 <= j < n && lines[j].FrameRate?) && (exists j :: 0 <= j < n && lines[j].Geometry?)
    && (n < |lines| ==> lines[n].Record?)
    && (forall j :: n <= j < |lines| ==> CountsForSome(lines[j]))
    && forall j {:trigger GoesOn(lines[j], lines[j + 1])} :: n <= j < |lines| - 1 ==> GoesOn(lines[j], lines[j + 1])
  }

  lemma CountedIff(l: Line, f: int)
    ensures Counted(l) == Some(f) <==> CountsFor(l, f)
    ensures Counted(l).Some? <==> CountsForSome(l)
  {
    if Counted(l).Some? {
      assert CountsFor(l, Counted(l).value);
    }
  }

  lemma GoesOnIff(a: Line, b: Line)
    requires Counted(a).Some? && Counted(b).Some?
    ensures GoesOn(a, b) <==> FrameOf(b) == FrameOf(a) || FrameOf(b) == FrameOf(a) + 1
  {
    CountedIff(a, FrameOf(a));
    CountedIff(b, FrameOf(b));
  }

  lemma {:induction false} LastOfHeader(header: seq<Line>)
    requires forall l :: l in header ==> ReadableHeader(l)
    ensures LastFrameRate(header).Some? <==> exists j :: 0 <= j < |header| && header[j].FrameRate?
    ensures LastGeometry(header).Some? <==> exists j :: 0 <= j < |header| && header[j].Geometry?
  {
    if header != [] {
      var n := |header| - 1;
      assert header[n] in header;
      LastOfHeader(header[..n]);
      if j :| 0 <= j < |header| && header[j].FrameRate? && j < n {
        assert header[..n][j].FrameRate?;
      }
      if j :| 0 <= j < |header| && header[j].Geometry? && j < n {
        assert header[..n][j].Geometry?;
      }
    }
  }

  lemma RulesOfFrames(lines: seq<Line>, n: nat)
    requires n <= |lines| && AllCounted(lines[n..])
    ensures FrameRule(Frames(lines[n..])) <==>
              forall j {:trigger GoesOn(lines[j], lines[j + 1])} :: n <= j < |lines| - 1 ==>
                GoesOn(lines[j], lines[j + 1])
  {
    var frames := Frames(lines[n..]);
    forall j | n <= j < |lines| - 1 ensures GoesOn(lines[j], lines[j + 1]) <==> Stepped(frames, j + 1 - n) {
      assert lines[j] in lines[n..] && lines[j + 1] in lines[n..];
      GoesOnIff(lines[j], lines[j + 1]);
    }
    if forall j {:trigger GoesOn(lines[j], lines[j + 1])} :: n <= j < |lines| - 1 ==> GoesOn(lines[j], lines[j + 1]) {
      forall j | 0 < j < |frames| ensures Stepped(frames, j) {
        var i := n + j - 1;
        assert GoesOn(lines[i], lines[i + 1]);
      }
    }
    if FrameRule(frames) {
      forall j | n <= j < |lines| - 1 ensures GoesOn(lines[j], lines[j + 1]) {
        assert Stepped(frames, j + 1 - n);
      }
    }
  }

  lemma RestCounts(lines: seq<Line>, n: nat)
    requires n <= |lines|
    ensures AllCounted(lines[n..]) <==> forall j :: n <= j < |lines| ==> CountsForSome(lines[j])
  {
    forall j | n <= j < |lines| ensures Counted(lines[j]).Some? <==> CountsForSome(lines[j]) {
      CountedIff(lines[j], 0);
      assert lines[n..][j - n] == lines[j];
    }
    if AllCounted(lines[n..]) {
      forall j | n <= j < |lines| ensures CountsForSome(lines[j]) {
        assert lines[j] in lines[n..];
      }
    }
  }

  lemma HeaderIff(lines: seq<Line>, n: nat)
    requires n <= |lines|
    ensures (forall l :: l in lines[..n] ==> ReadableHeader(l)) <==>
              forall j :: 0 <= j < n ==>
                && !lines[j].Record? && !lines[j].Malformed?
                && (lines[j].FrameRate? || lines[j].Geometry? ==> lines[j].value.Some?)
  {
    forall j | 0 <= j < n ensures lines[j] in lines[..n] {
    }
  }

  /** A file is correct exactly if it follows the rules. */
  lemma CorrectIff(lines: seq<Line>, n: nat)
    ensures Correct(lines, n) <==> FollowsRules(lines, n)
  {
    if n <= |lines| {
      HeaderIff(lines, n);
      RestCounts(lines, n);
      if (forall l :: l in lines[..n] ==> ReadableHeader(l)) && AllCounted(lines[n..]) {
        LastOfHeader(lines[..n]);
        RulesOfFrames(lines, n);
        FirstPastHeader(lines, n);
      }
    }
  }

  lemma FirstPastHeader(lines: seq<Line>, n: nat)
    requires n <= |lines| && AllCounted(lines[n..])
    ensures n < |lines| ==> (!IsHeader(lines[n]) <==> lines[n].Record?)
  {
    if n < |lines| {
      assert lines[n] in lines[n..];
    }
  }

  /** What is recorded of it. */
  ghost predicate Describes(t: Trajectory, lines: seq<Line>, n: nat)
    requires Correct(lines, n)
  {
    && t.lines == lines
    && t.frameRate == LastFrameRate(lines[..n]).value && t.geometry == LastGeometry(lines[..n]).value
    && t.span == if n == |lines| then None else Some((Counted(lines[n]).value, Counted(lines[|lines| - 1]).value))
  }

  lemma HeaderEndUnique(lines: seq<Line>, m: nat, n: nat)
    requires HeaderEnds(lines, m) && HeaderEnds(lines, n)
    ensures m == n
  {
    assert forall k :: 0 <= k < n ==> lines[k] in lines[..n];
    assert forall k :: 0 <= k < m ==> lines[k] in lines[..m];
  }

  /** Read the header, up to the first line that does not belong to it. */
  method ParseHeader(
    lines: seq<Line>) returns (n: nat, frameRate: Option<string>, geometry: Option<string>, readable: bool)
    ensures readable ==>
              HeaderEnds(lines, n) && frameRate == LastFrameRate(lines[..n]) && geometry == LastGeometry(lines[..n])
    ensures !readable ==> forall m: nat :: !HeaderEnds(lines, m)
  {
    n, frameRate, geometry := 0, None, None;
    while n < |lines| && IsHeader(lines[n])
      invariant n <= |lines|
      invariant forall l :: l in lines[..n] ==> ReadableHeader(l)
      invariant frameRate == LastFrameRate(lines[..n]) && geometry == LastGeometry(lines[..n])
    {
      if !ReadableHeader(lines[n]) {
        forall m: nat ensures !HeaderEnds(lines, m) {
          if n < m <= |lines| {
            assert lines[n] in lines[..m];
          } else if m < n {
            assert lines[m] in lines[..n];
          }
        }
        return n, frameRate, geometry, false;
      }
      assert lines[..n + 1][..n] == lines[..n];
      if lines[n].FrameRate? {
        frameRate := lines[n].value;
      } else if lines[n].Geometry? {
        geometry := lines[n].value;
      }
      n := n + 1;
    }
    readable := true;
  }

  method Parse(lines: seq<Line>) returns (r: Option<Trajectory>)
    ensures r.Some? <==> exists n: nat :: Correct(lines, n)
    ensures r.Some? ==> exists n: nat :: Correct(lines, n) && Describes(r.value, lines, n)
  {
    var n, frameRate, geometry, readable := ParseHeader(lines);
    if !readable {
      return None;
    }
    forall m | HeaderEnds(lines, m) ensures m == n {
      HeaderEndUnique(lines, m, n);
    }
    if n < |lines| && lines[n].Malformed? {
      assert lines[n] in lines[n..];
      return None;
    }
    if frameRate.None? || geometry.None? {
      return None;
    }
    r := ParseRecords(lines, n, frameRate.value, geometry.value);
  }

  /** What comes after the header, which ends at line n. */
  method ParseRecords(
    lines: seq<Line>, n: nat, frameRate: string, geometry: string) returns (r: Option<Trajectory>)
    requires HeaderEnds(lines, n) && (n < |lines| ==> lines[n].Record?)
    requires LastFrameRate(lines[..n]) == Some(frameRate) && LastGeometry(lines[..n]) == Some(geometry)
    ensures r.Some? <==> Correct(lines, n)
    ensures r.Some? ==> Describes(r.value, lines, n)
  {
    if n == |lines| {
      return Some(Trajectory(frameRate, geometry, None, lines));
    }
    var last := lines[n].frame;
    for i := n + 1 to |lines|
      invariant Follows(lines, n, i, last)
    {
      if !Continues(last, lines[i]) {
        WrongLine(lines, n, i, last);
        return None;
      }
      AddLine(lines, n, i, last);
      last := Counted(lines[i]).value;
    }
    assert lines[n..|lines|] == lines[n..];
    assert Correct(lines, n);
    r := Some(Trajectory(frameRate, geometry, Some((lines[n].frame, last)), lines));
  }

  /** A line counts for the frame before it or the next one. */
  predicate Continues(last: int, l: Line) {
    Counted(l) == Some(last) || Counted(l) == Some(last + 1)
  }

  /** Lines n up to i follow the frame rule and end with the frame `last`. */
  ghost predicate Follows(lines: seq<Line>, n: nat, i: nat, last: int) {
    && n < i <= |lines| && AllCounted(lines[n..i]) && FrameRule(Frames(lines[n..i]))
    && Counted(lines[i - 1]) == Some(last)
  }

  lemma AddLine(lines: seq<Line>, n: nat, i: nat, last: int)
    requires i < |lines| && Follows(lines, n, i, last) && Continues(last, lines[i])
    ensures Follows(lines, n, i + 1, Counted(lines[i]).value)
  {
    assert lines[n..i + 1] == lines[n..i] + [lines[i]];
    var before, after := Frames(lines[n..i]), Frames(lines[n..i + 1]);
    forall l {:trigger Stepped(after, l)} | 0 < l < |after| ensures Stepped(after, l) {
      assert l < |before| ==> Stepped(before, l);
    }
  }

  lemma WrongLine(lines: seq<Line>, n: nat, i: nat, last: int)
    requires i < |lines| && Follows(lines, n, i, last) && !Continues(last, lines[i])
    ensures !Correct(lines, n)
  {
    assert lines[i] in lines[n..];
    if AllCounted(lines[n..]) {
      var frames := Frames(lines[n..]);
      assert !Stepped(frames, i - n);
    }
  }

  /** Past the first record, an empty line or a comment without a number makes a file incorrect, although
      one before it does not. */
  lemma LateHeaderLine(lines: seq<Line>, i: nat, j: nat, n: nat)
    requires i < j < |lines| && lines[i].Record? && IsHeader(lines[j]) && Counted(lines[j]).None?
    ensures !Correct(lines, n)
  {
    assert i < n <= |lines| ==> lines[i] in lines[..n];
    assert n <= i ==> lines[j] in lines[n..];
  }

  /** An input: a file of one record is accepted, the same file with an empty line after it is not. */
  lemma EmptyLineAtTheEnd(record: Line)
    requires record.Record?
    ensures Correct([FrameRate(Some("10"), None), Geometry(Some("hall"), None), record], 2)
    ensures forall n: nat :: !Correct([FrameRate(Some("10"), None), Geometry(Some("hall"), None), record, Blank], n)
  {
    var lines := [FrameRate(Some("10"), None), Geometry(Some("hall"), None), record];
    assert lines[..2] == [FrameRate(Some("10"), None), Geometry(Some("hall"), None)] && lines[2..] == [record];
    assert lines[..2][..1] == [FrameRate(Some("10"), None)];
    forall n: nat ensures !Correct(lines + [Blank], n) {
      LateHeaderLine(lines + [Blank], 2, 3, n);
    }
    assert lines + [Blank] == [FrameRate(Some("10"), None), Geometry(Some("hall"), None), record, Blank];
  }

  /** The frame rule leaves no frame out between the first and the last. */
  lemma {:induction false} FrameRuleCovers(frames: seq<int>)
    requires frames != [] && FrameRule(frames)
    ensures frames[0] <= frames[|frames| - 1]
    ensures forall f :: f in frames <==> frames[0] <= f <= frames[|frames| - 1]
  {
    var n := |frames| - 1;
    if n > 0 {
      var front := frames[..n];
      RuleOfFront(frames);
      FrameRuleCovers(front);
      assert frames == front + [frames[n]];
    }
  }

  lemma RuleOfFront(frames: seq<int>)
    requires |frames| > 1 && FrameRule(frames)
    ensures FrameRule(frames[..|frames| - 1]) && Stepped(frames, |frames| - 1)
  {
    var front := frames[..|frames| - 1];
    forall j {:trigger Stepped(front, j)} | 0 < j < |front| ensures Stepped(front, j) {
      assert Stepped(frames, j);
    }
  }

  // ---- Several files ----

  type Span = (int, int)

  ghost predicate ValidSpans(spans: seq<Span>) {
    forall i :: 0 <= i < |spans| ==> spans[i].0 <= spans[i].1
  }

  /** What the check of all files demands: a start is the least one or follows an end, and no two
      are the same. */
  ghost predicate Matching(spans: seq<Span>) {
    && (forall i :: 0 <= i < |spans| ==> FirstOfAll(spans, i) || FollowsSome(spans, i))
    && forall i, j :: 0 <= i < j < |spans| ==> spans[i].0 != spans[j].0
  }

  ghost predicate FirstOfAll(spans: seq<Span>, i: int)
    requires 0 <= i < |spans|
  {
    forall j :: 0 <= j < |spans| ==> spans[i].0 <= spans[j].0
  }

  ghost predicate FollowsSome(spans: seq<Span>, i: int)
    requires 0 <= i < |spans|
  {
    exists j :: 0 <= j < |spans| && spans[j].1 == spans[i].0 - 1
  }

  method Minimum(starts: seq<int>) returns (m: int)
    requires starts != []
    ensures m in starts && forall s :: s in starts ==> m <= s
  {
    m := starts[0];
    for i := 1 to |starts|
      invariant m in starts && forall k :: 0 <= k < i ==> m <= starts[k]
    {
      if starts[i] < m {
        m := starts[i];
      }
    }
  }

  method CheckData(spans: seq<Span>) returns (accepted: bool)
    ensures accepted <==> Matching(spans)
  {
    var starts := seq(|spans|, i requires 0 <= i < |spans| => spans[i].0);
    var ends := seq(|spans|, i requires 0 <= i < |spans| => spans[i].1);
    for i := 0 to |spans|
      invariant forall k :: 0 <= k < i ==> FirstOfAll(spans, k) || FollowsSome(spans, k)
      invariant forall k, j :: 0 <= k < i && 0 <= j < |spans| && k != j ==> spans[k].0 != spans[j].0
    {
      var least := Minimum(starts);
      StartsAndEnds(spans, starts, ends, least, i);
      if starts[i] != least && starts[i] - 1 !in ends {
        return false;
      }
      if multiset(starts)[starts[i]] > 1 {
        CountedTwice(starts, i);
        return false;
      }
      CountedOnce(starts, i);
      assert forall j :: 0 <= j < |spans| ==> spans[j].0 == starts[j];
    }
    accepted := true;
  }

  lemma StartsAndEnds(spans: seq<Span>, starts: seq<int>, ends: seq<int>, least: int, i: nat)
    requires i < |spans| == |starts| == |ends|
    requires forall k :: 0 <= k < |spans| ==> spans[k] == (starts[k], ends[k])
    requires least in starts && forall s :: s in starts ==> least <= s
    ensures FirstOfAll(spans, i) <==> starts[i] == least
    ensures FollowsSome(spans, i) <==> starts[i] - 1 in ends
  {
    var m :| 0 <= m < |starts| && starts[m] == least;
    assert spans[m].0 == least && spans[i].0 == starts[i];
    forall j | 0 <= j < |spans| ensures least <= spans[j].0 {
      assert starts[j] in starts;
    }
    if starts[i] - 1 in ends {
      var j :| 0 <= j < |ends| && ends[j] == starts[i] - 1;
      assert spans[j].1 == spans[i].0 - 1;
    }
  }

  lemma CountedOnce(s: seq<int>, i: nat)
    requires i < |s| && multiset(s)[s[i]] <= 1
    ensures forall j :: 0 <= j < |s| && j != i ==> s[j] != s[i]
  {
    assert s == s[..i] + [s[i]] + s[i + 1..];
    assert multiset(s) == multiset(s[..i]) + multiset{s[i]} + multiset(s[i + 1..]);
    forall j | 0 <= j < |s| && j != i ensures s[j] != s[i] {
      assert if j < i then s[j] in multiset(s[..i]) else s[j] in multiset(s[i + 1..]);
    }
  }

  lemma CountedTwice(s: seq<int>, i: nat)
    requires i < |s| && multiset(s)[s[i]] > 1
    ensures exists j :: 0 <= j < |s| && j != i && s[j] == s[i]
  {
    assert s == s[..i] + [s[i]] + s[i + 1..];
    assert multiset(s) == multiset(s[..i]) + multiset{s[i]} + multiset(s[i + 1..]);
    if s[i] in multiset(s[..i]) {
      var j :| 0 <= j < i && s[j] == s[i];
    } else {
      assert s[i] in multiset(s[i + 1..]);
      var j :| 0 <= j < |s| - i - 1 && s[i + 1..][j] == s[i];
      assert s[i + 1 + j] == s[i];
    }
  }

  ghost predicate Sorted(spans: seq<Span>) {
    forall i, j :: 0 <= i < j < |spans| ==> spans[i].0 <= spans[j].0
  }

  /** Each span ends right before the next one starts. */
  ghost predicate Tiles(spans: seq<Span>) {
    forall j {:trigger Adjacent(spans, j)} :: 0 < j < |spans| ==> Adjacent(spans, j)
  }

  predicate Adjacent(spans: seq<Span>, j: int)
    requires 0 < j < |spans|
  {
    spans[j].0 == spans[j - 1].1 + 1
  }

  /** Whether spans match does not depend on their order. */
  lemma MatchingIgnoresOrder(spans: seq<Span>, other: seq<Span>)
    requires multiset(other) == multiset(spans) && Matching(spans)
    ensures Matching(other)
  {
    SameElements(spans, other);
    forall i | 0 <= i < |other| ensures FirstOfAll(other, i) || FollowsSome(other, i) {
      assert other[i] in spans;
      var k :| 0 <= k < |spans| && spans[k] == other[i];
      if FirstOfAll(spans, k) {
        forall j | 0 <= j < |other| ensures other[i].0 <= other[j].0 {
          assert other[j] in spans;
        }
      } else {
        var j :| 0 <= j < |spans| && spans[j].1 == spans[k].0 - 1;
        assert spans[j] in other;
      }
    }
    forall i, j | 0 <= i < j < |other| ensures other[i].0 != other[j].0 {
      assert other[i] in spans && other[j] in spans;
      DistinctCounts(spans, other[i]);
      if other[i] == other[j] {
        OccursTwice(other, i, j);
      }
    }
  }

  lemma OccursTwice(s: seq<Span>, i: nat, j: nat)
    requires i < j < |s| && s[i] == s[j]
    ensures multiset(s)[s[i]] >= 2
  {
    assert s == s[..j] + [s[j]] + s[j + 1..];
    assert multiset(s) == multiset(s[..j]) + multiset{s[j]} + multiset(s[j + 1..]);
    assert s[i] in s[..j];
  }

  lemma SameElements(s: seq<Span>, t: seq<Span>)
    requires multiset(s) == multiset(t)
    ensures |s| == |t| && forall x :: x in s <==> x in t
  {
    assert |multiset(s)| == |s| && |multiset(t)| == |t|;
    assert forall x :: x in s <==> x in multiset(s);
    assert forall x :: x in t <==> x in multiset(t);
  }

  lemma {:induction false} DistinctCounts(s: seq<Span>, x: Span)
    requires x in s && forall i, j :: 0 <= i < j < |s| ==> s[i].0 != s[j].0
    ensures multiset(s)[x] == 1
  {
    var i :| 0 <= i < |s| && s[i] == x;
    assert s == s[..i] + [x] + s[i + 1..];
    assert multiset(s) == multiset(s[..i]) + multiset{x} + multiset(s[i + 1..]);
    assert x !in s[..i] && x !in s[i + 1..];
  }

  lemma TakenEnd(spans: seq<Span>, n: nat, j: nat)
    requires Matching(spans) && j + 1 < n < |spans| && Tiles(spans[..n])
    ensures spans[j].1 != spans[n].0 - 1
  {
    assert Adjacent(spans[..n], j + 1);
    assert spans[j + 1].0 != spans[n].0;
  }

  /** Sorted by start, matching spans follow each other without gap or overlap: the end that a start
      follows can only be that of the span right before it, as every earlier end is already taken. */
  lemma {:induction false} MatchingTilesUpTo(spans: seq<Span>, n: nat)
    requires ValidSpans(spans) && Matching(spans) && Sorted(spans) && 0 < n <= |spans|
    ensures Tiles(spans[..n])
  {
    if n > 1 {
      MatchingTilesUpTo(spans, n - 1);
      var last := n - 1;
      assert spans[0].0 < spans[last].0;
      assert !FirstOfAll(spans, last);
      forall j | 0 <= j < last - 1 ensures spans[j].1 != spans[last].0 - 1 {
        TakenEnd(spans, last, j);
      }
      var k :| 0 <= k < |spans| && spans[k].1 == spans[last].0 - 1;
      assert k == last - 1;
      var taken := spans[..n];
      forall l {:trigger Adjacent(taken, l)} | 0 < l < n ensures Adjacent(taken, l) {
        assert l < last ==> Adjacent(spans[..last], l);
      }
    }
  }

  lemma {:induction false} TilesIncrease(spans: seq<Span>, i: nat, j: nat)
    requires ValidSpans(spans) && Tiles(spans) && i < j < |spans|
    ensures spans[i].1 < spans[j].0
  {
    assert Adjacent(spans, j);
    if i < j - 1 {
      TilesIncrease(spans, i, j - 1);
    }
  }

  /** The check accepts exactly the files that, in the order of their starts, tile one range of
      frames. */
  lemma MatchingIffTiles(spans: seq<Span>)
    requires ValidSpans(spans) && Sorted(spans)
    ensures Matching(spans) <==> Tiles(spans)
  {
    if Matching(spans) && spans != [] {
      MatchingTilesUpTo(spans, |spans|);
      assert spans[..|spans|] == spans;
    }
    if Tiles(spans) {
      forall i, j | 0 <= i < j < |spans| ensures spans[i].0 < spans[j].0 {
        TilesIncrease(spans, i, j);
      }
      forall i | 0 <= i < |spans| ensures FirstOfAll(spans, i) || FollowsSome(spans, i) {
        if i > 0 {
          assert Adjacent(spans, i) && spans[i - 1].1 == spans[i].0 - 1;
        }
      }
    }
  }

  // ---- The merged file ----

  ghost predicate Parsed(t: Trajectory) {
    exists n: nat :: Correct(t.lines, n) && Describes(t, t.lines, n)
  }

  function Concat(parts: seq<seq<Line>>): seq<Line> {
    if parts == [] then [] else Concat(parts[..|parts| - 1]) + parts[|parts| - 1]
  }

  /** Frames by the rule, and every one from lo to hi. */
  ghost predicate CoversByRule(frames: seq<int>, lo: int, hi: int) {
    FrameRule(frames) && forall f {:trigger HasIff(frames, lo, hi, f)} :: HasIff(frames, lo, hi, f)
  }

  predicate HasIff(frames: seq<int>, lo: int, hi: int, f: int) {
    f in frames <==> lo <= f <= hi
  }

  lemma FramesOfCover(frames: seq<int>, lo: int, hi: int)
    requires CoversByRule(frames, lo, hi)
    ensures forall f :: f in frames <==> lo <= f <= hi
  {
    forall f ensures f in frames <==> lo <= f <= hi {
      assert HasIff(frames, lo, hi, f);
    }
  }

  /** Some record has frame f. */
  ghost predicate Recorded(lines: seq<Line>, f: int) {
    exists k :: 0 <= k < |lines| && lines[k].Record? && lines[k].frame == f
  }

  /** Every frame that a line past the first record counts for is that of a record. */
  ghost predicate Backed(lines: seq<Line>) {
    forall i, j :: 0 <= i < j < |lines| && lines[i].Record? && Counted(lines[j]).Some? ==>
      Recorded(lines, Counted(lines[j]).value)
  }

  lemma {:induction false} EntriesAreRecords(lines: seq<Line>)
    ensures forall l :: l in Entries(lines) <==> l in lines && !IsHeader(l)
  {
    if lines != [] {
      EntriesAreRecords(lines[..|lines| - 1]);
    }
  }

  ghost predicate Ascending(frames: seq<int>) {
    forall i, j {:trigger InOrder(frames, i, j)} :: 0 <= i < j < |frames| ==> InOrder(frames, i, j)
  }

  predicate InOrder(frames: seq<int>, i: int, j: int)
    requires 0 <= i < j < |frames|
  {
    frames[i] <= frames[j]
  }

  lemma {:induction false} RuleAscends(frames: seq<int>)
    requires FrameRule(frames)
    ensures Ascending(frames)
  {
    if |frames| > 1 {
      var n := |frames| - 1;
      RuleOfFront(frames);
      RuleAscends(frames[..n]);
      FrameRuleCovers(frames[..n]);
      forall f | f in frames[..n] ensures f <= frames[n] {
      }
      AscendingAppend(frames[..n], frames[n]);
      assert frames == frames[..n] + [frames[n]];
    }
  }

  lemma AscendingAppend(frames: seq<int>, f: int)
    requires Ascending(frames) && forall x :: x in frames ==> x <= f
    ensures Ascending(frames + [f])
  {
    var all := frames + [f];
    forall i, j {:trigger InOrder(all, i, j)} | 0 <= i < j < |all| ensures InOrder(all, i, j) {
      assert frames[i] in frames && (j < |frames| ==> InOrder(frames, i, j));
    }
  }

  lemma AscendingFront(frames: seq<int>, f: int)
    requires Ascending(frames + [f])
    ensures Ascending(frames) && forall x :: x in frames ==> x <= f
  {
    var all := frames + [f];
    forall x | x in frames ensures x <= f {
      var i :| 0 <= i < |frames| && frames[i] == x;
      assert InOrder(all, i, |frames|);
    }
    forall i, j {:trigger InOrder(frames, i, j)} | 0 <= i < j < |frames| ensures InOrder(frames, i, j) {
      assert InOrder(all, i, j);
    }
  }

  /** Dropping lines keeps the frames in order. */
  lemma {:induction false} EntriesAscend(lines: seq<Line>)
    requires Ascending(Frames(lines))
    ensures Ascending(Frames(Entries(lines))) && forall f :: f in Frames(Entries(lines)) ==> f in Frames(lines)
  {
    if lines != [] {
      var n := |lines| - 1;
      var front, f := lines[..n], FrameOf(lines[n]);
      FramesConcat(front, [lines[n]]);
      assert lines == front + [lines[n]] && Frames([lines[n]]) == [f];
      AscendingFront(Frames(front), f);
      EntriesAscend(front);
      AscendingAppend(Frames(Entries(front)), f);
      FramesConcat(Entries(front), [lines[n]]);
      if IsHeader(lines[n]) {
        assert Entries(lines) == Entries(front);
      } else {
        assert Frames(Entries(lines)) == Frames(Entries(front)) + [f];
      }
    }
  }

  /** Frames in order that leave out none follow the rule. */
  lemma AscendingCoverIsRule(frames: seq<int>, lo: int, hi: int)
    requires Ascending(frames) && forall f :: lo <= f <= hi <==> f in frames
    ensures FrameRule(frames)
  {
    forall j {:trigger Stepped(frames, j)} | 0 < j < |frames| ensures Stepped(frames, j) {
      assert InOrder(frames, j - 1, j) && frames[j - 1] in frames && frames[j] in frames;
      forall k | 0 <= k < |frames| ensures frames[k] <= frames[j - 1] || frames[k] >= frames[j] {
        assert (k < j - 1 ==> InOrder(frames, k, j - 1)) && (j < k ==> InOrder(frames, j, k));
      }
      assert frames[j - 1] < hi ==> frames[j - 1] + 1 in frames;
    }
  }

  /** The part past the header. */
  lemma EntriesPastHeader(lines: seq<Line>, n: nat)
    requires Correct(lines, n)
    ensures Entries(lines) == Entries(lines[n..])
  {
    EntriesSplit(lines[..n], lines[n..]);
    HeaderHasNoEntries(lines[..n]);
    assert lines == lines[..n] + lines[n..];
  }

  lemma {:induction false} HeaderHasNoEntries(header: seq<Line>)
    requires forall l :: l in header ==> IsHeader(l)
    ensures Entries(header) == []
  {
    if header != [] {
      HeaderHasNoEntries(header[..|header| - 1]);
    }
  }

  lemma {:induction false} EntriesSplit(a: seq<Line>, b: seq<Line>)
    ensures Entries(a + b) == Entries(a) + Entries(b)
  {
    if b == [] {
      assert a + b == a;
    } else {
      var n := |b| - 1;
      assert (a + b)[..|a| + n] == a + b[..n];
      EntriesSplit(a, b[..n]);
    }
  }

  lemma FirstEntry(lines: seq<Line>)
    requires lines != [] && !IsHeader(lines[0])
    ensures Entries(lines) != [] && Entries(lines)[0] == lines[0]
  {
    EntriesSplit(lines[..1], lines[1..]);
    assert lines == lines[..1] + lines[1..] && lines[..1][..0] == [];
    assert Entries(lines[..1]) == [lines[0]];
  }

  /** The lines past the header cover their range. */
  lemma RestCovers(lines: seq<Line>, n: nat)
    requires Correct(lines, n) && n < |lines|
    ensures var lo, hi := FrameOf(lines[n]), FrameOf(lines[|lines| - 1]);
            lo <= hi && CoversByRule(Frames(lines[n..]), lo, hi)
  {
    FrameRuleCovers(Frames(lines[n..]));
  }

  /** The entries are records in order, the first line past the header among them. */
  lemma EntriesInOrder(lines: seq<Line>, n: nat)
    requires Correct(lines, n) && n < |lines|
    ensures var e := Entries(lines);
            && e != [] && e[0] == lines[n] && AllRecords(e) && Ascending(Frames(e))
            && forall f :: f in Frames(e) ==> f in Frames(lines[n..])
  {
    var rest := lines[n..];
    EntriesPastHeader(lines, n);
    RuleAscends(Frames(rest));
    EntriesAscend(rest);
    FirstEntry(rest);
    EntriesAreCounted(rest);
  }

  lemma EntriesAreCounted(lines: seq<Line>)
    requires AllCounted(lines)
    ensures AllRecords(Entries(lines))
  {
    EntriesAreRecords(lines);
  }

  ghost predicate WithinSpan(e: seq<Line>, span: Span) {
    && e != [] && AllRecords(e) && Ascending(Frames(e)) && Frames(e)[0] == span.0
    && forall f :: f in Frames(e) ==> span.0 <= f <= span.1
  }

  /** Where a parsed file's header ends. */
  lemma HeaderOf(t: Trajectory) returns (n: nat)
    requires Parsed(t) && t.span.Some?
    ensures Correct(t.lines, n) && n < |t.lines|
    ensures t.span.value.0 == FrameOf(t.lines[n]) && t.span.value.1 == FrameOf(t.lines[|t.lines| - 1])
  {
    n :| Correct(t.lines, n) && Describes(t, t.lines, n);
  }

  /** A parsed file's span runs from its first frame to its last, and its entries are records in order
      from within the span, its first among them. */
  lemma ParsedFrames(t: Trajectory)
    requires Parsed(t) && t.span.Some?
    ensures t.span.value.0 <= t.span.value.1
    ensures WithinSpan(Entries(t.lines), t.span.value)
  {
    var n := HeaderOf(t);
    EntriesWithin(t.lines, n, t.span.value.0, t.span.value.1);
  }

  lemma EntriesWithin(lines: seq<Line>, n: nat, lo: int, hi: int)
    requires Correct(lines, n) && n < |lines|
    requires lo == FrameOf(lines[n]) && hi == FrameOf(lines[|lines| - 1])
    ensures lo <= hi && WithinSpan(Entries(lines), (lo, hi))
  {
    RestCovers(lines, n);
    FramesOfCover(Frames(lines[n..]), lo, hi);
    EntriesInOrder(lines, n);
  }

  /** Its entries cover the span by the frame rule exactly if every frame counted is that of a record. */
  lemma EntriesCoverIffBacked(t: Trajectory)
    requires Parsed(t) && t.span.Some?
    ensures CoversByRule(Frames(Entries(t.lines)), t.span.value.0, t.span.value.1) <==> Backed(t.lines)
  {
    var n := HeaderOf(t);
    CoverIffBacked(t.lines, n, t.span.value.0, t.span.value.1);
  }

  lemma CoverIffBacked(lines: seq<Line>, n: nat, lo: int, hi: int)
    requires Correct(lines, n) && n < |lines|
    requires lo == FrameOf(lines[n]) && hi == FrameOf(lines[|lines| - 1])
    ensures CoversByRule(Frames(Entries(lines)), lo, hi) <==> Backed(lines)
  {
    RestCovers(lines, n);
    EntriesWithin(lines, n, lo, hi);
    if Backed(lines) {
      BackedCovers(lines, n, lo, hi);
    }
    if CoversByRule(Frames(Entries(lines)), lo, hi) {
      CoveredIsBacked(lines, n, lo, hi);
    }
  }

  lemma BackedCovers(lines: seq<Line>, n: nat, lo: int, hi: int)
    requires Correct(lines, n) && Backed(lines) && CoversByRule(Frames(lines[n..]), lo, hi)
    requires WithinSpan(Entries(lines), (lo, hi))
    ensures CoversByRule(Frames(Entries(lines)), lo, hi)
  {
    var frames := Frames(Entries(lines));
    FramesOfCover(Frames(lines[n..]), lo, hi);
    forall f | lo <= f <= hi ensures f in frames {
      BackedFrame(lines, n, f);
      RecordedIffEntry(lines, f);
    }
    AscendingCoverIsRule(frames, lo, hi);
  }

  lemma CoveredIsBacked(lines: seq<Line>, n: nat, lo: int, hi: int)
    requires Correct(lines, n) && CoversByRule(Frames(lines[n..]), lo, hi) && AllRecords(Entries(lines))
    requires CoversByRule(Frames(Entries(lines)), lo, hi)
    ensures Backed(lines)
  {
    FramesOfCover(Frames(lines[n..]), lo, hi);
    FramesOfCover(Frames(Entries(lines)), lo, hi);
    forall i, j | 0 <= i < j < |lines| && lines[i].Record? && Counted(lines[j]).Some?
      ensures Recorded(lines, Counted(lines[j]).value) {
      PastHeader(lines, n, i);
      FrameAt(lines, n, j);
      RecordedIffEntry(lines, FrameOf(lines[j]));
    }
  }

  lemma FrameAt(lines: seq<Line>, n: nat, j: nat)
    requires n <= j < |lines|
    ensures FrameOf(lines[j]) in Frames(lines[n..])
  {
    assert Frames(lines[n..])[j - n] == FrameOf(lines[j]);
  }

  lemma RecordedIffEntry(lines: seq<Line>, f: int)
    requires AllRecords(Entries(lines))
    ensures Recorded(lines, f) <==> f in Frames(Entries(lines))
  {
    var e := Entries(lines);
    EntriesAreRecords(lines);
    if Recorded(lines, f) {
      var k :| 0 <= k < |lines| && lines[k].Record? && lines[k].frame == f;
      assert lines[k] in e;
      var l :| 0 <= l < |e| && e[l] == lines[k];
      assert Frames(e)[l] == f;
    }
    if f in Frames(e) {
      var l :| 0 <= l < |e| && Frames(e)[l] == f;
      assert e[l] in lines;
    }
  }

  lemma PastHeader(lines: seq<Line>, n: nat, i: nat)
    requires HeaderEnds(lines, n) && i < |lines| && lines[i].Record?
    ensures n <= i
  {
    assert forall k :: 0 <= k < n ==> lines[k] in lines[..n];
  }

  lemma BackedFrame(lines: seq<Line>, n: nat, f: int)
    requires Correct(lines, n) && Backed(lines) && f in Frames(lines[n..])
    ensures Recorded(lines, f)
  {
    var k :| 0 <= k < |lines| - n && Frames(lines[n..])[k] == f;
    assert lines[n] in lines[n..] && lines[n].Record?;
    if k > 0 {
      assert Counted(lines[n + k]) == Some(f);
    }
  }

  /** An input: the comment counts for frame 2, so the file is accepted, but what is copied of it leaves
      that frame out. */
  lemma CommentHidesGap(first: string, third: string)
    ensures var lines := [FrameRate(Some("10"), None), Geometry(Some("hall"), None), Record(1, first),
              Comment(Some(2)), Record(3, third)];
            Correct(lines, 2) && !Backed(lines) && Entries(lines) == [Record(1, first), Record(3, third)]
  {
    var lines := [FrameRate(Some("10"), None), Geometry(Some("hall"), None), Record(1, first), Comment(Some(2)),
      Record(3, third)];
    assert lines[..2] == [FrameRate(Some("10"), None), Geometry(Some("hall"), None)];
    assert lines[..2][..1] == [FrameRate(Some("10"), None)];
    assert lines[2..] == [Record(1, first), Comment(Some(2)), Record(3, third)];
    EntriesPastHeader(lines, 2);
    EntriesAroundComment(Record(1, first), Comment(Some(2)), Record(3, third));
    assert !Recorded(lines, 2) && Counted(lines[3]) == Some(2);
  }

  lemma EntriesAroundComment(a: Line, comment: Line, b: Line)
    requires a.Record? && comment.Comment? && b.Record?
    ensures Entries([a, comment, b]) == [a, b]
  {
    var rest := [a, comment, b];
    assert rest[..2] == [a, comment] && rest[..2][..1] == [a];
    assert Entries(rest[..2][..1]) == [a];
    assert Entries(rest[..2]) == [a];
  }

  function EntriesOf(ts: seq<Trajectory>): (r: seq<seq<Line>>)
    ensures |r| == |ts| && forall i :: 0 <= i < |ts| ==> r[i] == Entries(ts[i].lines)
  {
    seq(|ts|, i requires 0 <= i < |ts| => Entries(ts[i].lines))
  }

  function Spans(ts: seq<Trajectory>): (r: seq<Span>)
    requires forall t :: t in ts ==> t.span.Some?
    ensures |r| == |ts| && forall i :: 0 <= i < |ts| ==> r[i] == ts[i].span.value
  {
    seq(|ts|, i requires 0 <= i < |ts| => ts[i].span.value)
  }

  lemma {:induction false} ConcatOfRecords(ts: seq<Trajectory>)
    requires forall t :: t in ts ==> AllRecords(Entries(t.lines))
    ensures AllRecords(Concat(EntriesOf(ts)))
  {
    if ts != [] {
      var n := |ts| - 1;
      assert EntriesOf(ts)[..n] == EntriesOf(ts[..n]);
      ConcatOfRecords(ts[..n]);
    }
  }

  /** A frame of the merged file comes from one of the files. */
  lemma {:induction false} MergedFrom(ts: seq<Trajectory>, f: int) returns (i: nat)
    requires forall t :: t in ts ==> AllRecords(Entries(t.lines))
    requires AllRecords(Concat(EntriesOf(ts))) && f in Frames(Concat(EntriesOf(ts)))
    ensures i < |ts| && AllRecords(Entries(ts[i].lines)) && f in Frames(Entries(ts[i].lines))
  {
    var n := |ts| - 1;
    var front, last := Concat(EntriesOf(ts[..n])), Entries(ts[n].lines);
    assert EntriesOf(ts)[..n] == EntriesOf(ts[..n]);
    ConcatOfRecords(ts[..n]);
    assert ts[n] in ts;
    assert Frames(front + last) == Frames(front) + Frames(last);
    if f in Frames(last) {
      i := n;
    } else {
      i := MergedFrom(ts[..n], f);
    }
  }

  lemma JoinCovers(a: seq<int>, b: seq<int>, lo: int, m: int, hi: int)
    requires lo <= m < hi && CoversByRule(a, lo, m) && CoversByRule(b, m + 1, hi)
    ensures CoversByRule(a + b, lo, hi)
  {
    RuleAscends(a);
    RuleAscends(b);
    FramesOfCover(a, lo, m);
    FramesOfCover(b, m + 1, hi);
    assert m in a && m + 1 in b;
    Ends(a);
    Ends(b);
    var all := a + b;
    forall j {:trigger Stepped(all, j)} | 0 < j < |all| ensures Stepped(all, j) {
      assert (j < |a| ==> Stepped(a, j)) && (j > |a| ==> Stepped(b, j - |a|));
    }
  }

  /** Frames in order begin with the least and end with the greatest. */
  lemma Ends(frames: seq<int>)
    requires frames != [] && Ascending(frames)
    ensures frames[0] in frames && frames[|frames| - 1] in frames
    ensures forall f :: f in frames ==> frames[0] <= f <= frames[|frames| - 1]
  {
    forall f | f in frames ensures frames[0] <= f <= frames[|frames| - 1] {
      var k :| 0 <= k < |frames| && frames[k] == f;
      assert (k > 0 ==> InOrder(frames, 0, k)) && (k < |frames| - 1 ==> InOrder(frames, k, |frames| - 1));
    }
  }

  ghost predicate AllBacked(ts: seq<Trajectory>) {
    forall t :: t in ts ==> Backed(t.lines)
  }

  /** Each part covers its span by the frame rule. */
  ghost predicate PartsCover(parts: seq<seq<Line>>, spans: seq<Span>) {
    && |parts| == |spans| && ValidSpans(spans)
    && forall i :: 0 <= i < |parts| ==> CoversByRule(Frames(parts[i]), spans[i].0, spans[i].1)
  }

  /** Parts that tile a range, one after the other, again cover it by the frame rule. */
  lemma ConcatCovers(parts: seq<seq<Line>>, spans: seq<Span>)
    requires parts != [] && PartsCover(parts, spans) && Tiles(spans)
    ensures CoversByRule(Frames(Concat(parts)), spans[0].0, spans[|spans| - 1].1)
  {
    assert Concat(parts[..0]) == [] && parts[..1][..0] == parts[..0];
    assert Concat(parts[..1]) == parts[0];
    for n := 1 to |parts|
      invariant spans[0].0 <= spans[n - 1].1
      invariant CoversByRule(Frames(Concat(parts[..n])), spans[0].0, spans[n - 1].1)
    {
      OnePartMore(parts, spans, n);
    }
    assert parts[..|parts|] == parts;
  }

  lemma OnePartMore(parts: seq<seq<Line>>, spans: seq<Span>, n: nat)
    requires 0 < n < |parts| && PartsCover(parts, spans) && Tiles(spans) && spans[0].0 <= spans[n - 1].1
    requires CoversByRule(Frames(Concat(parts[..n])), spans[0].0, spans[n - 1].1)
    ensures CoversByRule(Frames(Concat(parts[..n + 1])), spans[0].0, spans[n].1) && spans[0].0 <= spans[n].1
  {
    assert Adjacent(spans, n) && parts[..n + 1][..n] == parts[..n];
    FramesConcat(Concat(parts[..n]), parts[n]);
    JoinCovers(Frames(Concat(parts[..n])), Frames(parts[n]), spans[0].0, spans[n - 1].1, spans[n].1);
  }

  lemma ParsedSpansAreValid(ts: seq<Trajectory>)
    requires forall t :: t in ts ==> Parsed(t) && t.span.Some?
    ensures ValidSpans(Spans(ts))
  {
    forall i | 0 <= i < |ts| ensures Spans(ts)[i].0 <= Spans(ts)[i].1 {
      ParsedFrames(ts[i]);
    }
  }

  lemma SpanWithin(spans: seq<Span>, i: nat)
    requires ValidSpans(spans) && Tiles(spans) && i < |spans|
    ensures spans[0].0 <= spans[i].0 && spans[i].1 <= spans[|spans| - 1].1
  {
    if 0 < i {
      TilesIncrease(spans, 0, i);
    }
    if i < |spans| - 1 {
      TilesIncrease(spans, i, |spans| - 1);
    }
  }

  /** So tiling files merge into one that follows the rule again. */
  lemma TilesMergeWell(ts: seq<Trajectory>)
    requires ts != [] && forall t :: t in ts ==> Parsed(t) && t.span.Some?
    requires Tiles(Spans(ts)) && AllBacked(ts)
    ensures CoversByRule(Frames(Concat(EntriesOf(ts))), ts[0].span.value.0, ts[|ts| - 1].span.value.1)
  {
    EntriesAreParts(ts, EntriesOf(ts), Spans(ts));
    ConcatCovers(EntriesOf(ts), Spans(ts));
  }

  lemma EntriesAreParts(ts: seq<Trajectory>, parts: seq<seq<Line>>, spans: seq<Span>)
    requires (forall t :: t in ts ==> Parsed(t) && t.span.Some?) && AllBacked(ts)
    requires parts == EntriesOf(ts) && spans == Spans(ts)
    ensures PartsCover(parts, spans)
  {
    ParsedSpansAreValid(ts);
    forall i | 0 <= i < |ts| ensures CoversByRule(Frames(parts[i]), spans[i].0, spans[i].1) {
      EntryCovers(ts[i]);
    }
  }

  lemma EntryCovers(t: Trajectory)
    requires Parsed(t) && t.span.Some? && Backed(t.lines)
    ensures CoversByRule(Frames(Entries(t.lines)), t.span.value.0, t.span.value.1)
  {
    EntriesCoverIffBacked(t);
  }

  /** And only if every frame counted in a file is that of one of its records. */
  lemma MergedCoversIffBacked(ts: seq<Trajectory>)
    requires ts != [] && forall t :: t in ts ==> Parsed(t) && t.span.Some?
    requires Tiles(Spans(ts))
    ensures AllRecords(Concat(EntriesOf(ts)))
    ensures CoversByRule(Frames(Concat(EntriesOf(ts))), ts[0].span.value.0, ts[|ts| - 1].span.value.1) <==>
            AllBacked(ts)
  {
    forall t | t in ts ensures AllRecords(Entries(t.lines)) {
      ParsedFrames(t);
    }
    ConcatOfRecords(ts);
    if AllBacked(ts) {
      TilesMergeWell(ts);
    }
    if CoversByRule(Frames(Concat(EntriesOf(ts))), ts[0].span.value.0, ts[|ts| - 1].span.value.1) {
      forall i | 0 <= i < |ts| ensures Backed(ts[i].lines) {
        BackedIfCovered(ts, i);
      }
    }
  }

  lemma BackedIfCovered(ts: seq<Trajectory>, i: nat)
    requires i < |ts| && forall t :: t in ts ==> Parsed(t) && t.span.Some? && AllRecords(Entries(t.lines))
    requires Tiles(Spans(ts)) && AllRecords(Concat(EntriesOf(ts)))
    requires CoversByRule(Frames(Concat(EntriesOf(ts))), ts[0].span.value.0, ts[|ts| - 1].span.value.1)
    ensures Backed(ts[i].lines)
  {
    var merged, span := Frames(Concat(EntriesOf(ts))), ts[i].span.value;
    var whole := (ts[0].span.value.0, ts[|ts| - 1].span.value.1);
    ParsedSpansAreValid(ts);
    SpanWithin(Spans(ts), i);
    CoversPart(merged, whole, span);
    forall f | span.0 <= f <= span.1 ensures f in Frames(Entries(ts[i].lines)) {
      FromItsFile(ts, i, f);
    }
    FilledIsBacked(ts[i]);
  }

  lemma CoversPart(frames: seq<int>, whole: Span, part: Span)
    requires CoversByRule(frames, whole.0, whole.1) && whole.0 <= part.0 && part.1 <= whole.1
    ensures forall f :: part.0 <= f <= part.1 ==> f in frames
  {
    FramesOfCover(frames, whole.0, whole.1);
  }

  lemma FilledIsBacked(t: Trajectory)
    requires Parsed(t) && t.span.Some?
    requires forall f :: t.span.value.0 <= f <= t.span.value.1 ==> f in Frames(Entries(t.lines))
    ensures Backed(t.lines)
  {
    ParsedFrames(t);
    AscendingCoverIsRule(Frames(Entries(t.lines)), t.span.value.0, t.span.value.1);
    EntriesCoverIffBacked(t);
  }

  /** A frame of the merged file comes from the file in whose span it lies. */
  lemma FromItsFile(ts: seq<Trajectory>, i: nat, f: int)
    requires i < |ts| && forall t :: t in ts ==> Parsed(t) && t.span.Some? && AllRecords(Entries(t.lines))
    requires Tiles(Spans(ts)) && AllRecords(Concat(EntriesOf(ts))) && f in Frames(Concat(EntriesOf(ts)))
    requires ts[i].span.value.0 <= f <= ts[i].span.value.1
    ensures f in Frames(Entries(ts[i].lines))
  {
    var k := MergedFrom(ts, f);
    FrameInSpan(ts[k], f);
    ParsedSpansAreValid(ts);
    SpansApart(Spans(ts), i, k, f);
  }

  lemma FrameInSpan(t: Trajectory, f: int)
    requires Parsed(t) && t.span.Some? && f in Frames(Entries(t.lines))
    ensures t.span.value.0 <= f <= t.span.value.1
  {
    ParsedFrames(t);
  }

  lemma SpansApart(spans: seq<Span>, i: nat, k: nat, f: int)
    requires ValidSpans(spans) && Tiles(spans) && i < |spans| && k < |spans|
    requires spans[i].0 <= f <= spans[i].1 && spans[k].0 <= f <= spans[k].1
    ensures i == k
  {
    if k < i {
      TilesIncrease(spans, k, i);
    } else if i < k {
      TilesIncrease(spans, i, k);
    }
  }

  /** Where a span belongs: after all that do not start later. */
  method PositionByStart(spans: seq<Span>, s: Span) returns (i: nat)
    ensures i <= |spans| && (i > 0 ==> spans[i - 1].0 <= s.0)
    ensures forall k :: i <= k < |spans| ==> s.0 < spans[k].0
  {
    i := |spans|;
    while i > 0 && s.0 < spans[i - 1].0
      invariant i <= |spans|
      invariant forall k :: i <= k < |spans| ==> s.0 < spans[k].0
    {
      i := i - 1;
    }
  }

  method InsertByStart(ts: seq<Trajectory>, t: Trajectory) returns (r: seq<Trajectory>)
    requires t.span.Some? && forall x :: x in ts ==> x.span.Some?
    requires Sorted(Spans(ts))
    ensures multiset(r) == multiset(ts) + multiset{t}
    ensures (forall x :: x in r ==> x.span.Some?) && Sorted(Spans(r))
    ensures multiset(Spans(r)) == multiset(Spans(ts)) + multiset{t.span.value}
  {
    var i := PositionByStart(Spans(ts), t.span.value);
    r := ts[..i] + [t] + ts[i..];
    ghost var spans := Spans(ts);
    assert Spans(r) == spans[..i] + [t.span.value] + spans[i..];
    InsertedIsSorted(spans, i, t.span.value);
    InsertedElements(spans, i, t.span.value);
    InsertedElements(ts, i, t);
  }

  lemma InsertedIsSorted(spans: seq<Span>, i: nat, s: Span)
    requires Sorted(spans) && i <= |spans| && (i > 0 ==> spans[i - 1].0 <= s.0)
    requires forall k :: i <= k < |spans| ==> s.0 < spans[k].0
    ensures Sorted(spans[..i] + [s] + spans[i..])
  {
    var r := spans[..i] + [s] + spans[i..];
    forall j, k | 0 <= j < k < |r| ensures r[j].0 <= r[k].0 {
      assert j < i ==> spans[j].0 <= spans[i - 1].0;
    }
  }

  lemma InsertedElements<T>(s: seq<T>, i: nat, x: T)
    requires i <= |s|
    ensures multiset(s[..i] + [x] + s[i..]) == multiset(s) + multiset{x}
  {
    assert s == s[..i] + s[i..];
  }

  /** Files in the order of their starts. */
  method SortByStart(ts: seq<Trajectory>) returns (r: seq<Trajectory>)
    requires forall t :: t in ts ==> t.span.Some?
    ensures multiset(r) == multiset(ts) && (forall t :: t in r ==> t.span.Some?)
    ensures Sorted(Spans(r)) && multiset(Spans(r)) == multiset(Spans(ts))
  {
    r := [];
    for i := 0 to |ts|
      invariant multiset(r) == multiset(ts[..i]) && forall t :: t in r ==> t.span.Some?
      invariant Sorted(Spans(r)) && multiset(Spans(r)) == multiset(Spans(ts)[..i])
    {
      assert ts[..i + 1] == ts[..i] + [ts[i]] && Spans(ts)[..i + 1] == Spans(ts)[..i] + [Spans(ts)[i]];
      r := InsertByStart(r, ts[i]);
    }
    assert ts[..|ts|] == ts && Spans(ts)[..|ts|] == Spans(ts);
  }

  /** Sorting accepted files makes them tile. */
  lemma SortedTiles(ts: seq<Trajectory>, sorted: seq<Trajectory>)
    requires forall t :: t in ts ==> Parsed(t) && t.span.Some?
    requires forall t :: t in sorted ==> t.span.Some?
    requires multiset(sorted) == multiset(ts) && multiset(Spans(sorted)) == multiset(Spans(ts))
    requires Matching(Spans(ts)) && Sorted(Spans(sorted))
    ensures Tiles(Spans(sorted)) && forall t :: t in sorted ==> Parsed(t)
  {
    forall t | t in sorted ensures Parsed(t) {
      assert t in multiset(ts);
    }
    MatchingIgnoresOrder(Spans(ts), Spans(sorted));
    ParsedSpansAreValid(sorted);
    MatchingIffTiles(Spans(sorted));
  }

  /** The merge: the files in the order of their starts, headers dropped. If the files parse and
      the check accepts them, the merged file has every frame from the least start to the greatest end by
      the same rule as each file, exactly if no comment counted for a frame that no record has. */
  method MergeTrajectories(trajectories: seq<Trajectory>) returns (merged: seq<Line>, ghost sorted: seq<Trajectory>)
    requires trajectories != [] && forall t :: t in trajectories ==> Parsed(t) && t.span.Some?
    requires Matching(Spans(trajectories))
    ensures multiset(sorted) == multiset(trajectories) && (forall t :: t in sorted ==> t.span.Some?)
    ensures sorted != [] && Sorted(Spans(sorted)) && Tiles(Spans(sorted))
    ensures merged == Concat(EntriesOf(sorted)) && AllRecords(merged)
    ensures CoversByRule(Frames(merged), sorted[0].span.value.0, sorted[|sorted| - 1].span.value.1) <==>
            AllBacked(trajectories)
  {
    var ordered := SortByStart(trajectories);
    SortedTiles(trajectories, ordered);
    MergedCoversIffBacked(ordered);
    assert forall t :: t in ordered <==> t in multiset(trajectories);
    sorted := ordered;
    merged := AppendEntries(ordered);
  }

  method AppendEntries(ts: seq<Trajectory>) returns (merged: seq<Line>)
    ensures merged == Concat(EntriesOf(ts))
  {
    merged := [];
    for i := 0 to |ts|
      invariant merged == Concat(EntriesOf(ts)[..i])
    {
      assert EntriesOf(ts)[..i + 1][..i] == EntriesOf(ts)[..i];
      merged := merged + Entries(ts[i].lines);
    }
    assert EntriesOf(ts)[..|ts|] == EntriesOf(ts);
  }
}
