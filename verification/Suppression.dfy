/**
  What the printed lines mean: the run-length form of the complete listing, and the expansion that
  turns a suppressed listing back into the complete one, for any line width.
 */
module Suppression {
  import opened Basics
  import opened HexDump

  // ---------- An independent reference: run-length encoding of the list of lines ----------

  function Chunks(data: seq<byte>, w: nat): (r: seq<seq<byte>>)
    requires w > 0
    ensures |data| <= w ==> r == if data == [] then [] else [data]
  {
    if |data| <= w then (if data == [] then [] else [data])
    else [data[..w]] + Chunks(data[w..], w)
  }

  type pos = x: nat | x >= 1 witness 1

  datatype Run = Run(line: seq<byte>, count: pos)

  function RunLengths(ls: seq<seq<byte>>): seq<Run> {
    if ls == [] then []
    else
      var rest := RunLengths(ls[1..]);
      if rest != [] && rest[0].line == ls[0] then [Run(ls[0], rest[0].count + 1)] + rest[1..]
      else [Run(ls[0], 1)] + rest
  }

  function Unfold(rs: seq<Run>): seq<seq<byte>> {
    if rs == [] then [] else seq(rs[0].count, _ => rs[0].line) + Unfold(rs[1..])
  }

  // Putting a line in front of a list lengthens its first run or starts a new one.
  lemma RunLengthsCons(line: seq<byte>, ls: seq<seq<byte>>)
    ensures var rest, rs := RunLengths(ls), RunLengths([line] + ls);
            rs == if rest != [] && rest[0].line == line then [Run(line, rest[0].count + 1)] + rest[1..]
                  else [Run(line, 1)] + rest
  {
    assert ([line] + ls)[1..] == ls;
  }

  lemma UnfoldCons(r: Run, rest: seq<Run>)
    ensures Unfold([r] + rest) == seq(r.count, _ => r.line) + Unfold(rest)
    ensures r.count > 1 ==> Unfold([r] + rest) == [r.line] + Unfold([Run(r.line, r.count - 1)] + rest)
    ensures r.count == 1 ==> Unfold([r] + rest) == [r.line] + Unfold(rest)
  {
    assert ([r] + rest)[1..] == rest;
    if r.count > 1 {
      var shorter := Run(r.line, r.count - 1);
      assert ([shorter] + rest)[1..] == rest;
    }
  }

  // The runs are maximal and they spell the list.
  lemma {:induction false} RunsAreMaximal(ls: seq<seq<byte>>)
    ensures Unfold(RunLengths(ls)) == ls
    ensures forall k :: 0 < k < |RunLengths(ls)| ==> RunLengths(ls)[k - 1].line != RunLengths(ls)[k].line
  {
    if ls != [] {
      var line, tail := ls[0], ls[1..];
      RunsAreMaximal(tail);
      RunLengthsCons(line, tail);
      hide RunLengths, Unfold;
      assert ls == [line] + tail;
      var rest := RunLengths(tail);
      if rest != [] && rest[0].line == line {
        assert rest == [Run(line, rest[0].count)] + rest[1..];
        UnfoldCons(Run(line, rest[0].count + 1), rest[1..]);
      } else {
        UnfoldCons(Run(line, 1), rest);
      }
    }
  }

  // One printed line per run: the address of its first line, '*' when it has more than one.
  function HeadLines(rs: seq<Run>, at: nat, w: nat): seq<Line> {
    if rs == [] then []
    else [Line(at, rs[0].count > 1, rs[0].line)] + HeadLines(rs[1..], at + w * rs[0].count, w)
  }

  lemma {:induction false} HeadsOfRuns(rs: seq<Run>, at: nat, w: nat)
    ensures |HeadLines(rs, at, w)| == |rs|
    ensures forall k :: 0 <= k < |rs| ==> HeadLines(rs, at, w)[k].bytes == rs[k].line
  {
    if rs != [] {
      HeadsOfRuns(rs[1..], at + w * rs[0].count, w);
      assert forall k :: 0 < k < |rs| ==> rs[k] == rs[1..][k - 1];
    }
  }

  // The backward test at a line is the forward test at the line before it: both ask whether two
  // neighbouring lines are equal, and a short line equals no complete one.
  lemma TestsAgree(data: seq<byte>, w: nat, i: nat)
    requires i + w < |data|
    ensures SameAsNext(data, w, i) <==> SameAsPrevious(data, w, i + w)
    ensures SameAsNext(data, w, i) <==> LineAt(data, w, i) == LineAt(data, w, i + w)
  {
  }

  lemma ChunksFrom(data: seq<byte>, w: nat, i: nat)
    requires w > 0 && i < |data|
    ensures i + w < |data| ==> Chunks(data[i..], w) == [LineAt(data, w, i)] + Chunks(data[i + w..], w)
    ensures i + w >= |data| ==> Chunks(data[i..], w) == [LineAt(data, w, i)]
  {
    if i + w < |data| {
      assert data[i..][w..] == data[i + w..] && data[i..][..w] == LineAt(data, w, i);
    } else {
      assert data[i..] == LineAt(data, w, i);
    }
  }

  lemma HeadLinesCons(r: Run, rest: seq<Run>, at: nat, w: nat)
    ensures HeadLines([r] + rest, at, w) == [Line(at, r.count > 1, r.line)] + HeadLines(rest, at + w * r.count, w)
  {
    assert ([r] + rest)[1..] == rest;
  }

  lemma LinesFrom(data: seq<byte>, w: nat, full: bool, i: nat)
    requires w > 0
    ensures i >= |data| ==> Lines(data, w, full, i) == []
    ensures i < |data| && !full && SameAsPrevious(data, w, i) ==> Lines(data, w, full, i) == Lines(data, w, full, i + w)
    ensures i < |data| && (full || !SameAsPrevious(data, w, i)) ==>
              Lines(data, w, full, i)
              == [Line(i, !full && SameAsNext(data, w, i), LineAt(data, w, i))] + Lines(data, w, full, i + w)
  {
  }

  lemma LastLine(data: seq<byte>, w: nat, i: nat)
    requires w > 0 && i < |data| <= i + w
    ensures !SameAsNext(data, w, i)
    ensures RunLengths([]) == [] && HeadLines([], i + w, w) == []
  {
  }

  // From any index: if the line there is dropped, its run has been printed already.
  lemma {:induction false} LinesAreRunHeads(data: seq<byte>, w: nat, i: nat)
    requires w > 0 && i < |data|
    ensures var rs := RunLengths(Chunks(data[i..], w));
            rs != [] && rs[0].line == LineAt(data, w, i) &&
            Lines(data, w, false, i)
            == if SameAsPrevious(data, w, i) then HeadLines(rs[1..], i + w * rs[0].count, w) else HeadLines(rs, i, w)
    decreases |data| - i
  {
    hide Chunks, RunLengths, HeadLines, Lines, SameAsNext, SameAsPrevious, LineAt;
    var line, tail := LineAt(data, w, i), if i + w < |data| then Chunks(data[i + w..], w) else [];
    var rest, rs := RunLengths(tail), RunLengths([line] + tail);
    ChunksFrom(data, w, i);
    assert Chunks(data[i..], w) == [line] + tail;
    LinesFrom(data, w, false, i);
    RunLengthsCons(line, tail);
    if i + w < |data| {
      LinesAreRunHeads(data, w, i + w);
      TestsAgree(data, w, i);
    } else {
      LinesFrom(data, w, false, i + w);
      LastLine(data, w, i);
    }
    if rest != [] && rest[0].line == line {
      assert rs == [rs[0]] + rest[1..] && rs[1..] == rest[1..];
      HeadLinesCons(rs[0], rest[1..], i, w);
      assert rs[0].count == rest[0].count + 1;
      assert i + w * rs[0].count == i + w + w * rest[0].count;
    } else {
      assert rs[1..] == rest;
      HeadLinesCons(rs[0], rest, i, w);
    }
  }

  /** Canonical form: without FULL, exactly the first line of every maximal run is printed (a short last
      line is a run of its own), and it is marked exactly when its run goes on. */
  lemma CanonicalForm(data: seq<byte>, w: nat)
    requires w > 0
    ensures Lines(data, w, false, 0) == HeadLines(RunLengths(Chunks(data, w)), 0, w)
    ensures |Lines(data, w, false, 0)| == |RunLengths(Chunks(data, w))|
    ensures var ls := Lines(data, w, false, 0);
            forall k :: 0 < k < |ls| ==> ls[k - 1].bytes != ls[k].bytes
  {
    var rs := RunLengths(Chunks(data, w));
    if data != [] {
      assert data[0..] == data;
      LinesAreRunHeads(data, w, 0);
    }
    RunsAreMaximal(Chunks(data, w));
    HeadsOfRuns(rs, 0, w);
  }

  // ---------- Expansion ----------

  // A marked line stands for every line up to the next printed address.
  function Repeat(l: Line, w: nat, next: nat): seq<Line>
    requires w > 0
    decreases next - l.addr
  {
    [Line(l.addr, false, l.bytes)]
    + if l.star && l.addr + w < next then Repeat(Line(l.addr + w, true, l.bytes), w, next) else []
  }

  function NextAddress(rest: seq<Line>, size: nat): nat {
    if rest == [] then size else rest[0].addr
  }

  function Expand(ls: seq<Line>, w: nat, size: nat): seq<Line>
    requires w > 0
  {
    if ls == [] then [] else Repeat(ls[0], w, NextAddress(ls[1..], size)) + Expand(ls[1..], w, size)
  }

  function AllBytes(ls: seq<Line>): seq<byte> {
    if ls == [] then [] else ls[0].bytes + AllBytes(ls[1..])
  }

  lemma {:induction false} FullLinesHoldTheBytes(data: seq<byte>, w: nat, i: nat)
    requires w > 0 && i <= |data|
    ensures AllBytes(Lines(data, w, true, i)) == data[i..]
    decreases |data| - i
  {
    if i + w <= |data| {
      FullLinesHoldTheBytes(data, w, i + w);
      if i < |data| {
        assert Lines(data, w, true, i)[1..] == Lines(data, w, true, i + w);
        assert data[i..] == LineAt(data, w, i) + data[i + w..];
      }
    } else if i < |data| {
      assert Lines(data, w, true, i) == [Line(i, false, LineAt(data, w, i))];
    }
  }

  lemma {:induction false} FullLinesExpandToThemselves(data: seq<byte>, w: nat, i: nat)
    requires w > 0
    ensures Expand(Lines(data, w, true, i), w, |data|) == Lines(data, w, true, i)
    decreases |data| - i
  {
    if i < |data| {
      FullLinesExpandToThemselves(data, w, i + w);
      assert Lines(data, w, true, i)[1..] == Lines(data, w, true, i + w);
    }
  }

  lemma ExpandCons(l: Line, rest: seq<Line>, w: nat, size: nat)
    requires w > 0
    ensures Expand([l] + rest, w, size) == Repeat(l, w, NextAddress(rest, size)) + Expand(rest, w, size)
  {
    assert ([l] + rest)[1..] == rest;
  }

  // The line at i, as it is printed or as it would have been.
  function Shown(data: seq<byte>, w: nat, i: nat): Line
    requires i <= |data|
  {
    Line(i, SameAsNext(data, w, i), LineAt(data, w, i))
  }

  lemma ExpandNothing(w: nat, size: nat)
    requires w > 0
    ensures Expand([], w, size) == []
  {
  }

  // Lines from i on start at i or later; the line at i is there unless it was dropped.
  lemma {:induction false} NextIsBeyond(data: seq<byte>, w: nat, i: nat)
    requires w > 0
    ensures var ls := Lines(data, w, false, i);
            ls != [] ==> ls[0].addr >= i
    ensures i < |data| && !SameAsPrevious(data, w, i) ==> NextAddress(Lines(data, w, false, i), |data|) == i
    decreases |data| - i
  {
    if i < |data| {
      NextIsBeyond(data, w, i + w);
    }
  }

  // A dropped line's run reaches at least to the dropped line, and past it exactly when it is marked.
  lemma RunGoesOn(data: seq<byte>, w: nat, i: nat)
    requires w > 0 && i < |data| && SameAsPrevious(data, w, i)
    ensures var next := NextAddress(Lines(data, w, false, i + w), |data|);
            i < next && Repeat(Line(i, true, LineAt(data, w, i)), w, next) == Repeat(Shown(data, w, i), w, next)
  {
    NextIsBeyond(data, w, i + w);
    if i + w < |data| {
      TestsAgree(data, w, i);
    }
  }

  // The line at i, printed or standing in for a dropped one, and everything printed after it.
  lemma {:induction false} ExpansionFrom(data: seq<byte>, w: nat, i: nat)
    requires w > 0 && i < |data|
    ensures Expand([Shown(data, w, i)] + Lines(data, w, false, i + w), w, |data|) == Lines(data, w, true, i)
    decreases |data| - i
  {
    hide Expand, Lines, SameAsNext, SameAsPrevious, LineAt;
    var rest := Lines(data, w, false, i + w);
    var here, full := Shown(data, w, i), Line(i, false, LineAt(data, w, i));
    ExpandCons(here, rest, w, |data|);
    LinesFrom(data, w, true, i);
    LinesFrom(data, w, true, i + w);
    LinesFrom(data, w, false, i + w);
    if i + w < |data| {
      ExpansionFrom(data, w, i + w);
      TestsAgree(data, w, i);
      var there, after := Shown(data, w, i + w), Lines(data, w, false, i + w + w);
      if here.star {
        var next := NextAddress(after, |data|);
        RunGoesOn(data, w, i + w);
        ExpandCons(there, after, w, |data|);
        assert Repeat(here, w, next) == [full] + Repeat(there, w, next);
        Associate([full], Repeat(there, w, next), Expand(after, w, |data|));
      }
    } else {
      LastLine(data, w, i);
      ExpandNothing(w, |data|);
    }
  }

  /** Suppression preserves meaning: expanding what either mode prints gives exactly the lines of FULL
      mode, and those hold the buffer's bytes. */
  lemma ExpansionRestores(data: seq<byte>, w: nat, full: bool)
    requires w > 0
    ensures Expand(Lines(data, w, full, 0), w, |data|) == Lines(data, w, true, 0)
    ensures AllBytes(Lines(data, w, true, 0)) == data
  {
    FullLinesHoldTheBytes(data, w, 0);
    assert data[0..] == data;
    if full {
      FullLinesExpandToThemselves(data, w, 0);
    } else if data != [] {
      ExpansionFrom(data, w, 0);
    }
  }

  // A printed line carries '*' exactly when the next printed address is more than one line away.
  predicate StarsMatchGaps(ls: seq<Line>, w: nat, size: nat) {
    ls == [] || ((ls[0].star <==> NextAddress(ls[1..], size) > ls[0].addr + w) && StarsMatchGaps(ls[1..], w, size))
  }

  lemma GapAt(data: seq<byte>, w: nat, i: nat)
    requires w > 0 && i < |data|
    ensures SameAsNext(data, w, i) <==> NextAddress(Lines(data, w, false, i + w), |data|) > i + w
  {
    hide Lines, SameAsNext, SameAsPrevious, LineAt;
    LinesFrom(data, w, false, i + w);
    if i + w < |data| {
      TestsAgree(data, w, i);
      NextIsBeyond(data, w, i + w);
      NextIsBeyond(data, w, i + w + w);
    } else {
      LastLine(data, w, i);
    }
  }

  /** The forward and the backward test agree, all along the listing: a printed line carries '*' exactly
      when the next printed address (or the size, after the last line) is more than one line away. */
  lemma {:induction false} StarMeansGap(data: seq<byte>, w: nat, i: nat)
    requires w > 0
    ensures StarsMatchGaps(Lines(data, w, false, i), w, |data|)
    decreases |data| - i
  {
    LinesFrom(data, w, false, i);
    if i < |data| {
      StarMeansGap(data, w, i + w);
      GapAt(data, w, i);
      hide Lines, SameAsNext, SameAsPrevious, LineAt;
      if !SameAsPrevious(data, w, i) {
        assert Lines(data, w, false, i)[1..] == Lines(data, w, false, i + w);
      }
    }
  }
}
