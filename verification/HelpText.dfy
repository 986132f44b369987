/** Wrapping of option descriptions in the help output. */
module HelpText {
  import opened Common

  const INDENT: nat := 8
  const WIDTH: nat := 75 - INDENT

  /** A line's text, and whether the one space after it was swallowed by the break. */
  datatype Segment = Segment(text: string, space: bool) {
    function Source(): string {
      text + if space then " " else ""
    }
  }

  /** The description the lines came from, breaks undone. */
  function Rejoin(segs: seq<Segment>): string {
    if segs == [] then "" else Rejoin(segs[..|segs| - 1]) + segs[|segs| - 1].Source()
  }

  /** Undoing a break puts back the one space it swallowed, if it did. */
  lemma RejoinAppend(segs: seq<Segment>, s: Segment)
    ensures Rejoin([]) == "" && Rejoin(segs + [s]) == Rejoin(segs) + s.text + if s.space then " " else ""
  {
    assert (segs + [s])[..|segs|] == segs;
  }

  predicate SpaceWithin(d: string, lo: nat, hi: nat) {
    exists p :: lo <= p < hi && p < |d| && d[p] == ' '
  }

  /** A space within reach of the line starting at `start`, past its first character. */
  predicate SpaceAfter(d: string, start: nat) {
    SpaceWithin(d, start + 1, start + WIDTH + 1)
  }

  /** How many characters the line starting at `start` takes: all that is left if it fits, else up to the last
      space that keeps it within the width, and the full width when there is none. */
  ghost predicate Cut(d: string, start: nat, n: nat)
    requires start < |d|
  {
    if |d| - start <= WIDTH then n == |d| - start
    else
      && 1 <= n <= WIDTH
      && if SpaceAfter(d, start) then
           d[start + n] == ' ' && !SpaceWithin(d, start + n + 1, start + WIDTH + 1)
         else n == WIDTH
  }

  ghost predicate LineAt(d: string, start: nat, s: Segment) {
    && start < |d| && Cut(d, start, |s.text|)
    && s.text == d[start..start + |s.text|]
    && (s.space <==> start + |s.text| < |d| && d[start + |s.text|] == ' ')
  }

  /** The lines wrap `d` up to position `end`. */
  ghost predicate Wrapped(d: string, segs: seq<Segment>, end: nat) {
    && end == |Rejoin(segs)| <= |d|
    && forall k :: 0 <= k < |segs| ==> LineAt(d, |Rejoin(segs[..k])|, segs[k])
  }

  lemma WrappedOneMore(d: string, segs: seq<Segment>, end: nat, s: Segment)
    requires Wrapped(d, segs, end) && LineAt(d, end, s)
    ensures Wrapped(d, segs + [s], end + |s.Source()|)
  {
    var segs' := segs + [s];
    assert segs'[..|segs|] == segs;
    forall k | 0 <= k < |segs'|
      ensures LineAt(d, |Rejoin(segs'[..k])|, segs'[k])
    {
      if k < |segs| {
        assert segs'[..k] == segs[..k];
      }
    }
  }

  lemma WrappedLine(d: string, segs: seq<Segment>, end: nat, k: nat)
    requires Wrapped(d, segs, end) && k < |segs|
    ensures Wrapped(d, segs[..k], |Rejoin(segs[..k])|) && LineAt(d, |Rejoin(segs[..k])|, segs[k])
    ensures Rejoin(segs[..k + 1]) == Rejoin(segs[..k]) + segs[k].Source()
  {
    var a := segs[..k];
    assert forall j :: 0 <= j < k ==> a[..j] == segs[..j];
    assert LineAt(d, |Rejoin(a)|, segs[k]);
    assert segs[..k + 1][..k] == a;
  }

  lemma LineSource(d: string, start: nat, s: Segment)
    requires LineAt(d, start, s)
    ensures start + |s.Source()| <= |d| && s.Source() == d[start..start + |s.Source()|]
    ensures 1 <= |s.text| <= WIDTH
  {
  }

  lemma WrappedEnd(d: string, segs: seq<Segment>, end: nat)
    requires Wrapped(d, segs, end)
    ensures end == |Rejoin(segs)| <= |d|
  {
  }

  /** Every line is 1 to 67 characters long, and undoing the breaks gives back the description. */
  lemma {:induction false} WrappedRejoins(d: string, segs: seq<Segment>, end: nat)
    requires Wrapped(d, segs, end)
    ensures end <= |d| && Rejoin(segs) == d[..end]
    ensures forall k :: 0 <= k < |segs| ==> 1 <= |segs[k].text| <= WIDTH
  {
    hide LineAt;
    hide Wrapped;
    WrappedEnd(d, segs, end);
    if segs != [] {
      var n := |segs| - 1;
      var start := |Rejoin(segs[..n])|;
      WrappedLine(d, segs, end, n);
      LineSource(d, start, segs[n]);
      WrappedRejoins(d, segs[..n], start);
      assert segs[..n + 1] == segs;
      hide Rejoin;
      assert d[..start] + d[start..end] == d[..end];
    }
  }

  /** The wrapping rule leaves no choice: two wrappings of the same description agree line by line. */
  lemma {:induction false} WrappedUnique(d: string, a: seq<Segment>, b: seq<Segment>, k: nat)
    requires Wrapped(d, a, |d|) && Wrapped(d, b, |d|) && k <= |a|
    ensures k <= |b| && a[..k] == b[..k]
  {
    hide Wrapped;
    hide LineAt;
    hide Rejoin;
    if k > 0 {
      var j := k - 1;
      WrappedUnique(d, a, b, j);
      WrappedLine(d, a, |d|, j);
      NextLineSame(d, a[..j], a[j], b);
      assert a[..k] == a[..j] + [a[j]];
    }
  }

  /** A wrapping that begins with the lines `before` and has not reached the end goes on with the line due there. */
  lemma NextLineSame(d: string, before: seq<Segment>, s: Segment, b: seq<Segment>)
    requires Wrapped(d, b, |d|) && before <= b && LineAt(d, |Rejoin(before)|, s)
    ensures before + [s] <= b
  {
    hide Wrapped;
    hide LineAt;
    hide Rejoin;
    var j := |before|;
    LineStarts(d, |Rejoin(before)|, s);
    WrappedEnd(d, b, |d|);
    assert before == b[..j];
    assert b[..|b|] == b;
    WrappedLine(d, b, |d|, j);
    SameLine(d, |Rejoin(before)|, s, b[j]);
  }

  lemma LineStarts(d: string, start: nat, s: Segment)
    requires LineAt(d, start, s)
    ensures start < |d|
  {
  }

  lemma SameLine(d: string, start: nat, s: Segment, t: Segment)
    requires LineAt(d, start, s) && LineAt(d, start, t)
    ensures s == t
  {
  }

  /**
   How long each line is. All that is left, if that is at most 67 characters; else up to the last space
   among the 67 characters after the line's first, and 67 characters if there is none.
   */
  lemma LineLengths(d: string, segs: seq<Segment>, k: nat)
    requires Wrapped(d, segs, |d|) && k < |segs|
    ensures var start, n := |Rejoin(segs[..k])|, |segs[k].text|;
      && start + n <= |d| && segs[k].text == d[start..start + n]
      && (segs[k].space <==> start + n < |d| && d[start + n] == ' ')
      && if |d| - start <= 67 then n == |d| - start
         else if forall p :: start < p <= start + 67 ==> d[p] != ' ' then n == 67
         else 1 <= n <= 67 && d[start + n] == ' ' && forall p :: start + n < p <= start + 67 ==> d[p] != ' '
  {
    WrappedLine(d, segs, |d|, k);
    var start, n := |Rejoin(segs[..k])|, |segs[k].text|;
    if |d| - start > 67 {
      if p :| start < p <= start + 67 && d[p] == ' ' {
        assert SpaceAfter(d, start);
      }
    }
  }

  /** Of any 68 characters of the description, one after the first is a space. */
  ghost predicate NoLongWord(d: string) {
    forall i: nat :: i + WIDTH < |d| ==> SpaceAfter(d, i)
  }

  /** A description without overlong words is only ever broken at spaces. */
  lemma BreaksAtSpaces(d: string, segs: seq<Segment>)
    requires Wrapped(d, segs, |d|) && NoLongWord(d)
    ensures forall k :: 0 <= k < |segs| - 1 ==> segs[k].space
  {
    forall k | 0 <= k < |segs| - 1
      ensures segs[k].space
    {
      WrappedLine(d, segs, |d|, k);
      WrappedLine(d, segs, |d|, k + 1);
    }
  }

  /** `std::string::rfind`: the last position of `c` at or before `from`. */
  function RFind(s: string, c: char, from: nat): (r: Option<nat>)
    requires from < |s|
    ensures r.Some? ==> r.value <= from && s[r.value] == c && forall p :: r.value < p <= from ==> s[p] != c
    ensures r.None? ==> forall p :: 0 <= p <= from ==> s[p] != c
  {
    if s[from] == c then Some(from) else if from == 0 then None else RFind(s, c, from - 1)
  }

  function Blanks(n: nat): string {
    seq(n, _ => ' ')
  }

  function Indented(segs: seq<Segment>): seq<string> {
    if segs == [] then [] else Indented(segs[..|segs| - 1]) + [Blanks(INDENT) + segs[|segs| - 1].text]
  }

  /** One iteration of the wrapping loop: the line starting at `start`, and where the next one starts. */
  method NextLine(description: string, start: nat) returns (text: string, next: nat, ghost s: Segment)
    requires start < |description|
    ensures LineAt(description, start, s) && s.text == text
    ensures next >= start + 1 && (if next < |description| then next else |description|) == start + |s.Source()|
  {
    hide Cut;
    var chunk := WIDTH;
    if start + chunk < |description| {
      var pos := RFind(description, ' ', start + chunk);
      RFindCuts(description, start, pos);
      if pos.Some? && pos.value > start {
        chunk := pos.value - start;
      }
    }
    CutAtEnd(description, start, chunk);
    var end := if start + chunk < |description| then start + chunk else |description|;
    text := description[start..end];
    s := Segment(text, end < |description| && description[end] == ' ');
    next := start + chunk;
    if next < |description| && description[next] == ' ' {
      next := next + 1;
    }
  }

  /** The lines written for a description wrapped as `segs`; an empty description leaves a blank line. */
  function Written(leftPart: string, segs: seq<Segment>): seq<string> {
    ["  " + leftPart] + if segs == [] then [""] else Indented(segs)
  }

  /** The left part, and below it each text behind eight spaces; one empty line when there is no text. */
  predicate Shows(lines: seq<string>, leftPart: string, segs: seq<Segment>) {
    && |lines| == 1 + (if segs == [] then 1 else |segs|) && lines[0] == "  " + leftPart
    && (segs == [] ==> lines[1] == "")
    && forall k :: 0 <= k < |segs| ==> lines[k + 1] == "        " + segs[k].text
  }

  lemma {:induction false} IndentedAt(segs: seq<Segment>, k: nat)
    requires k < |segs|
    ensures |Indented(segs)| == |segs| && Indented(segs)[k] == "        " + segs[k].text
  {
    assert Blanks(INDENT) == "        ";
    IndentedSize(segs);
    if k < |segs| - 1 {
      IndentedAt(segs[..|segs| - 1], k);
    }
  }

  lemma {:induction false} IndentedSize(segs: seq<Segment>)
    ensures |Indented(segs)| == |segs|
  {
    if segs != [] {
      IndentedSize(segs[..|segs| - 1]);
    }
  }

  lemma WrittenShows(leftPart: string, segs: seq<Segment>)
    ensures Shows(Written(leftPart, segs), leftPart, segs)
  {
    IndentedSize(segs);
    forall k | 0 <= k < |segs|
      ensures Written(leftPart, segs)[k + 1] == "        " + segs[k].text
    {
      IndentedAt(segs, k);
    }
  }

  /** `printAlignedOption`: the lines written are the description wrapped, each text line indented. */
  method PrintAlignedOption(leftPart: string, description: string) returns (lines: seq<string>)
    ensures exists segs: seq<Segment> ::
      && Wrapped(description, segs, |description|) && Shows(lines, leftPart, segs)
      && Rejoin(segs) == description
      && forall k :: 0 <= k < |segs| ==> 1 <= |segs[k].text| <= 67
  {
    hide LineAt;
    hide Wrapped;
    hide Rejoin;
    lines := ["  " + leftPart];
    ghost var segs: seq<Segment> := [];
    StartsWrapped(description);
    var start: nat := 0;
    while start < |description|
      invariant Wrapped(description, segs, if start < |description| then start else |description|)
      invariant lines == ["  " + leftPart] + Indented(segs)
      decreases |description| - start
    {
      var text, next, s := NextLine(description, start);
      lines := lines + [Blanks(INDENT) + text];
      WrappedOneMore(description, segs, start, s);
      assert (segs + [s])[..|segs|] == segs;
      segs := segs + [s];
      start := next;
    }
    WrappedRejoins(description, segs, |description|);
    assert description[..|description|] == description;
    NoLines(description, segs);
    if description == "" {
      lines := lines + [""];
    }
    assert lines == Written(leftPart, segs);
    WrittenShows(leftPart, segs);
  }

  lemma NoLines(d: string, segs: seq<Segment>)
    requires Wrapped(d, segs, |d|)
    ensures segs == [] <==> d == ""
  {
    if segs != [] {
      WrappedLine(d, segs, |d|, 0);
    }
  }

  /** A line that reaches the end of the description takes all that is left. */
  lemma CutAtEnd(d: string, start: nat, chunk: nat)
    requires start < |d| && (start + WIDTH >= |d| ==> chunk == WIDTH)
    requires start + WIDTH < |d| ==> Cut(d, start, chunk)
    ensures Cut(d, start, (if start + chunk < |d| then start + chunk else |d|) - start)
  {
  }

  lemma StartsWrapped(d: string)
    ensures Wrapped(d, [], 0)
  {
  }

  /** Searching backwards for a space finds where the line is cut. */
  lemma RFindCuts(d: string, start: nat, pos: Option<nat>)
    requires start + WIDTH < |d| && pos == RFind(d, ' ', start + WIDTH)
    ensures Cut(d, start, if pos.Some? && pos.value > start then pos.value - start else WIDTH)
  {
  }
}
