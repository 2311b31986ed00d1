/** add_extra_borders on values. The list aux starts as a shallow copy of
    result, so its rows are the very row lists of result; the model tags each
    row of aux with where it came from, so that a later write through result
    can be followed into aux. */
module Borders {
  import opened Maybe

  /** Where a row of aux came from: the row list result[row] itself, or a
      fresh list made by list.copy(). */
  datatype Origin = Shared(row: nat) | Copied

  /** A row of aux as a value: where it came from and its current cells. */
  datatype Line = Line(origin: Origin, cells: seq<int>)

  /** One padding step of a row: its first cell inserted in front and its
      last cell appended. */
  function Pad(cells: seq<int>): (p: seq<int>)
    requires |cells| > 0
    ensures |p| == |cells| + 2
  {
    [cells[0]] + cells + [cells[|cells| - 1]]
  }

  /** The nearest index of [0, n) to i. */
  function Clip(i: int, n: nat): (j: nat)
    requires n > 0
    ensures j < n
  {
    if i < 0 then 0 else if i >= n then n - 1 else i
  }

  /** One padding step is edge replication: cell i of the padded row is the
      original cell nearest to column i - 1. */
  lemma PadAt(cells: seq<int>, i: int)
    requires |cells| > 0 && 0 <= i < |cells| + 2
    ensures Pad(cells)[i] == cells[Clip(i - 1, |cells|)]
  {
  }

  /** list.insert(i, l) for 0 <= i <= len. */
  function Insert(lines: seq<Line>, i: nat, l: Line): (t: seq<Line>)
    requires i <= |lines|
    ensures |t| == |lines| + 1
    ensures forall j :: 0 <= j < i ==> t[j] == lines[j]
    ensures t[i] == l
    ensures forall j :: i < j < |t| ==> t[j] == lines[j - 1]
  {
    lines[..i] + [l] + lines[i..]
  }

  /** The rows of result before padding: row j is the list result[j]. */
  function Initial(rows: seq<seq<int>>): (lines: seq<Line>)
    ensures |lines| == |rows|
  {
    seq(|rows|, j requires 0 <= j < |rows| => Line(Shared(j), rows[j]))
  }

  /** One pass of the inner loop of add_extra_borders at outer index lt: at
      lt == 0 or lt == height - 1 a copy of aux[lt] is inserted at lt, and
      then aux[lt] is padded once. None is an IndexError: aux[lt] missing, or
      aux[lt] empty so that aux[lt][0] fails. */
  function BorderStep(lines: seq<Line>, height: nat, lt: nat): Option<seq<Line>>
  {
    if lt < |lines| then
      var grown := if lt == 0 || lt == height - 1
                   then Insert(lines, lt, Line(Copied, lines[lt].cells))
                   else lines;
      if |grown[lt].cells| > 0
      then Some(grown[lt := Line(grown[lt].origin, Pad(grown[lt].cells))])
      else None
    else None
  }

  /** The two loops of add_extra_borders from outer index lt and inner index
      ks on: lt runs over [0, height + 2r) and, for each, ks over [0, r). */
  function AddBorders(lines: seq<Line>, height: nat, r: nat, lt: nat, ks: nat): Option<seq<Line>>
    decreases height + 2 * r - lt, r - ks
  {
    if lt >= height + 2 * r then Some(lines)
    else if ks >= r then AddBorders(lines, height, r, lt + 1, 0)
    else match BorderStep(lines, height, lt)
      case None => None
      case Some(next) => AddBorders(next, height, r, lt, ks + 1)
  }

  /** The index in aux of the list result[j]: the first row whose origin is
      Shared(j), or |lines| when there is none. */
  function Find(lines: seq<Line>, j: nat): (i: nat)
    ensures i <= |lines|
    ensures i < |lines| ==> lines[i].origin == Shared(j)
    ensures forall t :: 0 <= t < i ==> lines[t].origin != Shared(j)
  {
    if lines == [] then 0
    else if lines[0].origin == Shared(j) then 0
    else 1 + Find(lines[1..], j)
  }

  /** The index in aux of every row list of result. */
  function Positions(lines: seq<Line>, height: nat): (where: seq<nat>)
    ensures |where| == height
    ensures forall j :: 0 <= j < height ==> where[j] == Find(lines, j)
  {
    seq(height, j requires 0 <= j < height => Find(lines, j))
  }

  /** What use_kernel needs of aux: height + 2r rows, each at least
      width + 2r cells long. */
  ghost predicate WellShaped(lines: seq<Line>, height: nat, width: nat, r: nat)
  {
    |lines| == height + 2 * r
    && forall i :: 0 <= i < |lines| ==> |lines[i].cells| >= width + 2 * r
  }

  /** Every row is width cells long. */
  ghost predicate Rectangular(rows: seq<seq<int>>, width: nat)
  {
    forall j :: 0 <= j < |rows| ==> |rows[j]| == width
  }

  // ---------------------------------------------------------------------
  // Which inputs add_extra_borders accepts, and the shape it produces.

  /** How many rows the insertions have added before step (lt, ks), when
      height >= 2: r at the top once lt has passed 0, and r at index
      height - 1 once lt has passed height - 1. */
  function Inserted(height: nat, r: nat, lt: nat, ks: nat): nat
  {
    (if lt == 0 then ks else r)
    + (if lt + 1 < height then 0 else if lt + 1 == height then ks else r)
  }

  /** The state of aux before step (lt, ks): its length, every row at least
      width long, the rows before lt padded r times over, and row lt padded
      ks times so far. */
  ghost predicate Progress(lines: seq<Line>, height: nat, width: nat, r: nat, lt: nat, ks: nat)
  {
    |lines| == height + Inserted(height, r, lt, ks)
    && (forall i :: 0 <= i < |lines| ==> |lines[i].cells| >= width)
    && (forall i :: 0 <= i < lt && i < |lines| ==> |lines[i].cells| >= width + 2 * r)
    && (lt < |lines| ==> |lines[lt].cells| >= width + 2 * ks)
  }

  /** One inner step keeps Progress: the inserted copy (if any) and the
      padded row sit at lt, the rows before lt stay, the rows after shift. */
  lemma StepProgress(lines: seq<Line>, height: nat, width: nat, r: nat, lt: nat, ks: nat)
      returns (next: seq<Line>)
    requires height >= 2 && width >= 1
    requires lt < height + 2 * r && ks < r
    requires Progress(lines, height, width, r, lt, ks)
    ensures BorderStep(lines, height, lt) == Some(next)
    ensures Progress(next, height, width, r, lt, ks + 1)
  {
    assert lt < |lines|;
    if lt == 0 || lt == height - 1 {
      var grown := Insert(lines, lt, Line(Copied, lines[lt].cells));
      assert grown[lt] == Line(Copied, lines[lt].cells);
      next := grown[lt := Line(Copied, Pad(lines[lt].cells))];
      assert forall i :: 0 <= i < lt ==> next[i] == lines[i];
      assert forall i :: lt < i < |next| ==> next[i] == lines[i - 1];
    } else {
      next := lines[lt := Line(lines[lt].origin, Pad(lines[lt].cells))];
    }
  }

  /** Closing the inner loop at ks == r: row lt is padded r times over. */
  lemma NextRowProgress(lines: seq<Line>, height: nat, width: nat, r: nat, lt: nat)
    requires height >= 2 && width >= 1
    requires lt < height + 2 * r
    requires Progress(lines, height, width, r, lt, r)
    ensures Progress(lines, height, width, r, lt + 1, 0)
  {
    assert Inserted(height, r, lt, r) == Inserted(height, r, lt + 1, 0);
  }

  /** From any state that satisfies Progress the loops finish with a
      well-shaped aux. */
  lemma {:induction false} BordersFrom(lines: seq<Line>, height: nat, width: nat, r: nat, lt: nat, ks: nat)
    requires height >= 2 && width >= 1
    requires lt <= height + 2 * r && ks <= r
    requires Progress(lines, height, width, r, lt, ks)
    ensures AddBorders(lines, height, r, lt, ks).Some?
    ensures WellShaped(AddBorders(lines, height, r, lt, ks).value, height, width, r)
    decreases height + 2 * r - lt, r - ks
  {
    if lt >= height + 2 * r {
    } else if ks >= r {
      NextRowProgress(lines, height, width, r, lt);
      BordersFrom(lines, height, width, r, lt + 1, 0);
    } else {
      var next := StepProgress(lines, height, width, r, lt, ks);
      BordersFrom(next, height, width, r, lt, ks + 1);
    }
  }

  /** With r == 0 the loops pad nothing: aux is result's rows as they were. */
  lemma {:induction false} BordersRadiusZero(lines: seq<Line>, height: nat, lt: nat)
    ensures AddBorders(lines, height, 0, lt, 0) == Some(lines)
    decreases height - lt
  {
    if lt < height {
      BordersRadiusZero(lines, height, lt + 1);
    }
  }

  /** Height 1, after the r copies at the top: no row is inserted any more,
      and the outer loop reaches index r + 1 while aux has r + 1 rows. */
  lemma {:induction false} CrashAfterTop(lines: seq<Line>, r: nat, lt: nat, ks: nat)
    requires r >= 1 && 1 <= lt <= r + 1 && ks <= r
    requires lt == r + 1 ==> ks == 0
    requires |lines| == r + 1
    requires forall i :: 0 <= i < |lines| ==> |lines[i].cells| >= 1
    ensures AddBorders(lines, 1, r, lt, ks) == None
    decreases r + 1 - lt, r - ks
  {
    if ks >= r {
      CrashAfterTop(lines, r, lt + 1, 0);
    } else if lt < r + 1 {
      var next := lines[lt := Line(lines[lt].origin, Pad(lines[lt].cells))];
      assert BorderStep(lines, 1, lt) == Some(next);
      CrashAfterTop(next, r, lt, ks + 1);
    }
  }

  /** Height 1, while the copies at the top are being inserted. */
  lemma {:induction false} CrashAtTop(lines: seq<Line>, r: nat, ks: nat)
    requires r >= 1 && ks <= r
    requires |lines| == ks + 1
    requires forall i :: 0 <= i < |lines| ==> |lines[i].cells| >= 1
    ensures AddBorders(lines, 1, r, 0, ks) == None
    decreases r - ks
  {
    if ks >= r {
      CrashAfterTop(lines, r, 1, 0);
    } else {
      var grown := Insert(lines, 0, Line(Copied, lines[0].cells));
      var next := grown[0 := Line(Copied, Pad(lines[0].cells))];
      assert BorderStep(lines, 1, 0) == Some(next);
      assert forall i :: 1 <= i < |next| ==> next[i] == lines[i - 1];
      CrashAtTop(next, r, ks + 1);
    }
  }

  /** add_extra_borders finishes exactly when the kernel is 1x1 or the image
      has at least two rows of at least one pixel; otherwise it raises an
      IndexError (no row to copy, an empty row to pad, or, with one row, the
      outer loop running past the end of aux). When it finishes, aux has
      height + 2r rows of at least width + 2r cells. */
  lemma BordersDefined(rows: seq<seq<int>>, width: nat, r: nat)
    requires Rectangular(rows, width)
    ensures AddBorders(Initial(rows), |rows|, r, 0, 0).Some? <==> (r == 0 || (|rows| >= 2 && width >= 1))
    ensures AddBorders(Initial(rows), |rows|, r, 0, 0).Some? ==>
              WellShaped(AddBorders(Initial(rows), |rows|, r, 0, 0).value, |rows|, width, r)
  {
    var lines := Initial(rows);
    var height := |rows|;
    if r == 0 {
      BordersRadiusZero(lines, height, 0);
    } else if height == 0 {
      assert BorderStep(lines, height, 0) == None;
    } else if width == 0 {
      assert BorderStep(lines, height, 0) == None;
    } else if height == 1 {
      CrashAtTop(lines, r, 0);
    } else {
      BordersFrom(lines, height, width, r, 0, 0);
    }
  }

  // ---------------------------------------------------------------------
  // Every row list of result stays in aux, exactly once.

  /** Each row of aux that is a list of result is one of result's height
      lists, no list of result sits at two indices of aux, and every list of
      result is somewhere in aux. */
  ghost predicate Tracks(lines: seq<Line>, height: nat)
  {
    && (forall i :: 0 <= i < |lines| && lines[i].origin.Shared? ==> lines[i].origin.row < height)
    && (forall i, i' :: 0 <= i < |lines| && 0 <= i' < |lines| && i != i' && lines[i].origin.Shared? ==>
          lines[i'].origin != lines[i].origin)
    && (forall j :: 0 <= j < height ==> Find(lines, j) < |lines|)
  }

  /** Before add_extra_borders, aux holds result[j] at index j. */
  lemma InitialTracks(rows: seq<seq<int>>)
    ensures Tracks(Initial(rows), |rows|)
  {
    var lines := Initial(rows);
    forall j | 0 <= j < |rows|
      ensures Find(lines, j) < |lines|
    {
      assert lines[j].origin == Shared(j);
    }
  }

  /** Replacing the cells of a row keeps every origin, so it keeps Tracks. */
  lemma ReplaceTracks(lines: seq<Line>, height: nat, i: nat, cells: seq<int>)
    requires Tracks(lines, height) && i < |lines|
    ensures Tracks(lines[i := Line(lines[i].origin, cells)], height)
  {
    var next := lines[i := Line(lines[i].origin, cells)];
    forall j | 0 <= j < height
      ensures Find(next, j) < |next|
    {
      assert next[Find(lines, j)].origin == Shared(j);
    }
  }

  /** Inserting a copy shifts the rows at and after i by one and adds no
      list of result, so it keeps Tracks. */
  lemma InsertCopyTracks(lines: seq<Line>, height: nat, i: nat, cells: seq<int>)
    requires Tracks(lines, height) && i <= |lines|
    ensures Tracks(Insert(lines, i, Line(Copied, cells)), height)
  {
    var next := Insert(lines, i, Line(Copied, cells));
    forall t, t' | 0 <= t < |next| && 0 <= t' < |next| && t != t' && next[t].origin.Shared?
      ensures next[t'].origin != next[t].origin
    {
      var s := if t < i then t else t - 1;
      assert next[t] == lines[s];
      if t' != i {
        var s' := if t' < i then t' else t' - 1;
        assert next[t'] == lines[s'];
      }
    }
    forall j | 0 <= j < height
      ensures Find(next, j) < |next|
    {
      var w := Find(lines, j);
      var w' := if w < i then w else w + 1;
      assert next[w'].origin == Shared(j);
    }
  }

  /** One inner step of add_extra_borders keeps Tracks. */
  lemma StepTracks(lines: seq<Line>, height: nat, lt: nat)
    requires Tracks(lines, height) && BorderStep(lines, height, lt).Some?
    ensures Tracks(BorderStep(lines, height, lt).value, height)
  {
    var grown := if lt == 0 || lt == height - 1
                 then Insert(lines, lt, Line(Copied, lines[lt].cells))
                 else lines;
    if lt == 0 || lt == height - 1 {
      InsertCopyTracks(lines, height, lt, lines[lt].cells);
    }
    ReplaceTracks(grown, height, lt, Pad(grown[lt].cells));
  }

  lemma {:induction false} BordersTrackFrom(lines: seq<Line>, height: nat, r: nat, lt: nat, ks: nat)
    requires Tracks(lines, height)
    requires AddBorders(lines, height, r, lt, ks).Some?
    ensures Tracks(AddBorders(lines, height, r, lt, ks).value, height)
    decreases height + 2 * r - lt, r - ks
  {
    if lt >= height + 2 * r {
    } else if ks >= r {
      BordersTrackFrom(lines, height, r, lt + 1, 0);
    } else {
      StepTracks(lines, height, lt);
      BordersTrackFrom(BorderStep(lines, height, lt).value, height, r, lt, ks + 1);
    }
  }

  /** When add_extra_borders finishes, every list result[j] is in aux at
      exactly one index, Positions(aux)[j], and no other row of aux is a list
      of result: the copies are separate lists. */
  lemma BordersTrack(rows: seq<seq<int>>, r: nat)
    requires AddBorders(Initial(rows), |rows|, r, 0, 0).Some?
    ensures var aux := AddBorders(Initial(rows), |rows|, r, 0, 0).value;
      var where := Positions(aux, |rows|);
      && (forall j :: 0 <= j < |rows| ==> where[j] < |aux| && aux[where[j]].origin == Shared(j))
      && (forall j, i :: 0 <= j < |rows| && 0 <= i < |aux| && aux[i].origin == Shared(j) ==> i == where[j])
      && (forall i :: 0 <= i < |aux| && aux[i].origin.Shared? ==> aux[i].origin.row < |rows|)
  {
    InitialTracks(rows);
    BordersTrackFrom(Initial(rows), |rows|, r, 0, 0);
  }

  // ---------------------------------------------------------------------
  // Every row list of result is padded exactly r times.

  /** How many times a list of result at index i of aux has been padded
      before step (lt, ks): r once lt has passed it, ks while lt is on it
      (at 0 and height - 1 the padding goes to the copies instead), none
      before lt reaches it. */
  function PadCount(height: nat, r: nat, lt: nat, ks: nat, i: nat): nat
  {
    if i < lt then r
    else if i == lt && !(lt == 0 || lt == height - 1) then ks
    else 0
  }

  /** The lengths of the lists of result in aux before step (lt, ks), and,
      where copies are inserted, the row at lt is a copy once the first copy
      has gone in. */
  ghost predicate Padded(lines: seq<Line>, height: nat, width: nat, r: nat, lt: nat, ks: nat)
  {
    && (forall i :: 0 <= i < |lines| && lines[i].origin.Shared? ==>
          |lines[i].cells| == width + 2 * PadCount(height, r, lt, ks, i))
    && ((lt == 0 || lt == height - 1) && ks >= 1 && lt < |lines| ==> lines[lt].origin == Copied)
  }

  /** One inner step keeps Padded: an inserted copy takes index lt and is
      the row padded, pushing the list that was there past lt; otherwise
      the row at lt gains two cells. */
  lemma StepPadded(lines: seq<Line>, height: nat, width: nat, r: nat, lt: nat, ks: nat)
    requires height >= 2 && |lines| == height + Inserted(height, r, lt, ks)
    requires BorderStep(lines, height, lt).Some?
    requires Padded(lines, height, width, r, lt, ks)
    ensures |BorderStep(lines, height, lt).value| == height + Inserted(height, r, lt, ks + 1)
    ensures Padded(BorderStep(lines, height, lt).value, height, width, r, lt, ks + 1)
  {
    var next := BorderStep(lines, height, lt).value;
    if lt == 0 || lt == height - 1 {
      var grown := Insert(lines, lt, Line(Copied, lines[lt].cells));
      assert next == grown[lt := Line(Copied, Pad(grown[lt].cells))];
      forall i | 0 <= i < |next| && next[i].origin.Shared?
        ensures |next[i].cells| == width + 2 * PadCount(height, r, lt, ks + 1, i)
      {
        if i < lt {
          assert next[i] == lines[i];
        } else {
          assert next[i] == lines[i - 1];
        }
      }
    } else {
      assert next == lines[lt := Line(lines[lt].origin, Pad(lines[lt].cells))];
    }
  }

  /** Closing the inner loop at ks == r: the list at lt, if any, has been
      padded r times, and the one at lt + 1 not yet. */
  lemma NextRowPadded(lines: seq<Line>, height: nat, width: nat, r: nat, lt: nat)
    requires Padded(lines, height, width, r, lt, r)
    ensures Padded(lines, height, width, r, lt + 1, 0)
  {
    forall i | 0 <= i < |lines| && lines[i].origin.Shared?
      ensures |lines[i].cells| == width + 2 * PadCount(height, r, lt + 1, 0, i)
    {
      assert PadCount(height, r, lt, r, i) == PadCount(height, r, lt + 1, 0, i);
    }
  }

  /** Every list of result in aux is width + 2r cells long. */
  ghost predicate PaddedAll(lines: seq<Line>, width: nat, r: nat)
  {
    forall i :: 0 <= i < |lines| && lines[i].origin.Shared? ==> |lines[i].cells| == width + 2 * r
  }

  /** When the outer loop has run to its end, every list of result in aux
      has been padded r times. */
  lemma PaddedDone(lines: seq<Line>, height: nat, width: nat, r: nat, ks: nat)
    requires height >= 2 && |lines| == height + Inserted(height, r, height + 2 * r, ks)
    requires Padded(lines, height, width, r, height + 2 * r, ks)
    ensures PaddedAll(lines, width, r)
  {
    assert |lines| == height + 2 * r;
  }

  /** From any state of the right length that satisfies Padded, the loops,
      when they finish, leave every list of result in aux padded r times:
      width + 2r cells. */
  lemma {:induction false} PaddedFrom(lines: seq<Line>, height: nat, width: nat, r: nat, lt: nat, ks: nat)
    requires height >= 2 && |lines| == height + Inserted(height, r, lt, ks)
    requires lt <= height + 2 * r && ks <= r
    requires Padded(lines, height, width, r, lt, ks)
    requires AddBorders(lines, height, r, lt, ks).Some?
    ensures PaddedAll(AddBorders(lines, height, r, lt, ks).value, width, r)
    decreases height + 2 * r - lt, r - ks
  {
    if lt >= height + 2 * r {
      assert AddBorders(lines, height, r, lt, ks) == Some(lines);
      PaddedDone(lines, height, width, r, ks);
    } else if ks >= r {
      assert AddBorders(lines, height, r, lt, ks) == AddBorders(lines, height, r, lt + 1, 0);
      assert Inserted(height, r, lt, r) == Inserted(height, r, lt + 1, 0);
      NextRowPadded(lines, height, width, r, lt);
      PaddedFrom(lines, height, width, r, lt + 1, 0);
    } else {
      var next := BorderStep(lines, height, lt).value;
      assert AddBorders(lines, height, r, lt, ks) == AddBorders(next, height, r, lt, ks + 1);
      StepPadded(lines, height, width, r, lt, ks);
      PaddedFrom(next, height, width, r, lt, ks + 1);
    }
  }

  /** When add_extra_borders finishes, each list of result has been padded
      exactly r times: it is width + 2r cells long. Only the copies at the
      top and the bottom can be longer. */
  lemma BordersPadded(rows: seq<seq<int>>, width: nat, r: nat)
    requires Rectangular(rows, width)
    requires AddBorders(Initial(rows), |rows|, r, 0, 0).Some?
    ensures var aux := AddBorders(Initial(rows), |rows|, r, 0, 0).value;
      forall i :: 0 <= i < |aux| && aux[i].origin.Shared? ==> |aux[i].cells| == width + 2 * r
  {
    BordersDefined(rows, width, r);
    if r == 0 {
      BordersRadiusZero(Initial(rows), |rows|, 0);
    } else {
      PaddedFrom(Initial(rows), |rows|, width, r, 0, 0);
    }
  }

  // ---------------------------------------------------------------------
  // A uniform image stays uniform.

  /** Every cell of every row of aux is c. */
  ghost predicate Uniform(lines: seq<Line>, c: int)
  {
    forall i, t :: 0 <= i < |lines| && 0 <= t < |lines[i].cells| ==> lines[i].cells[t] == c
  }

  /** One inner step only copies and repeats cells. */
  lemma StepUniform(lines: seq<Line>, height: nat, lt: nat, c: int)
    requires Uniform(lines, c) && BorderStep(lines, height, lt).Some?
    ensures Uniform(BorderStep(lines, height, lt).value, c)
  {
    var grown := if lt == 0 || lt == height - 1
                 then Insert(lines, lt, Line(Copied, lines[lt].cells))
                 else lines;
    assert Uniform(grown, c);
    var padded := Pad(grown[lt].cells);
    assert forall t :: 0 <= t < |padded| ==> padded[t] == c;
  }

  /** Copying and padding only repeat cells, so add_extra_borders keeps aux
      uniform. */
  lemma {:induction false} BordersUniformFrom(lines: seq<Line>, height: nat, r: nat, lt: nat, ks: nat, c: int)
    requires Uniform(lines, c)
    requires AddBorders(lines, height, r, lt, ks).Some?
    ensures Uniform(AddBorders(lines, height, r, lt, ks).value, c)
    decreases height + 2 * r - lt, r - ks
  {
    if lt >= height + 2 * r {
    } else if ks >= r {
      BordersUniformFrom(lines, height, r, lt + 1, 0, c);
    } else {
      StepUniform(lines, height, lt, c);
      BordersUniformFrom(BorderStep(lines, height, lt).value, height, r, lt, ks + 1, c);
    }
  }

  // ---------------------------------------------------------------------
  // The exact result for a 3x3 kernel (r == 1).

  /** Where row i of the final aux comes from, for r == 1: a copy at index 0
      and at index height - 1, shared rows everywhere else. */
  function Origin3(height: nat, i: nat): Origin
    requires height >= 2
  {
    if i == 0 || i == height - 1 then Copied
    else if i < height - 1 then Shared(i - 1)
    else Shared(i - 2)
  }

  /** Which row of the image row i of the final aux repeats, for r == 1. */
  function Source3(height: nat, i: nat): (j: nat)
    requires height >= 2 && i < height + 2
    ensures j < height
  {
    if i == 0 then 0 else if i <= height - 1 then i - 1 else i - 2
  }

  /** The final aux for r == 1, height >= 2: row 0 (a copy) and row 1 both
      repeat image row 0; row i repeats image row i - 1 up to
      i == height - 1, which is a copy of image row height - 2 and not of the
      last row; then image rows height - 2 and height - 1 follow. Every row
      is padded once: its first cell in front, its last cell behind. */
  function Layout3(rows: seq<seq<int>>): (lines: seq<Line>)
    requires |rows| >= 2 && forall j :: 0 <= j < |rows| ==> |rows[j]| > 0
    ensures |lines| == |rows| + 2
  {
    var height := |rows|;
    seq(height + 2, i requires 0 <= i < height + 2 =>
      Line(Origin3(height, i), Pad(rows[Source3(height, i)])))
  }

  /** aux before outer index lt, 1 <= lt <= height - 1: the padded copy of
      row 0 in front of all rows of result, those before lt padded. */
  function Early(rows: seq<seq<int>>, lt: nat): (lines: seq<Line>)
    requires |rows| >= 2 && forall j :: 0 <= j < |rows| ==> |rows[j]| > 0
    ensures |lines| == |rows| + 1
  {
    seq(|rows| + 1, i requires 0 <= i < |rows| + 1 =>
      if i == 0 then Line(Copied, Pad(rows[0]))
      else Line(Shared(i - 1), if i < lt then Pad(rows[i - 1]) else rows[i - 1]))
  }

  /** aux before outer index lt, height <= lt <= height + 2: the layout of
      Layout3 with the rows before lt padded. */
  function Late(rows: seq<seq<int>>, lt: nat): (lines: seq<Line>)
    requires |rows| >= 2 && forall j :: 0 <= j < |rows| ==> |rows[j]| > 0
    ensures |lines| == |rows| + 2
  {
    var height := |rows|;
    seq(height + 2, i requires 0 <= i < height + 2 =>
      var src := rows[Source3(height, i)];
      Line(Origin3(height, i), if i < lt then Pad(src) else src))
  }

  lemma {:induction false} LateRun(rows: seq<seq<int>>, lt: nat)
    requires |rows| >= 2 && forall j :: 0 <= j < |rows| ==> |rows[j]| > 0
    requires |rows| <= lt <= |rows| + 2
    ensures AddBorders(Late(rows, lt), |rows|, 1, lt, 0) == Some(Layout3(rows))
    decreases |rows| + 2 - lt
  {
    var height := |rows|;
    if lt == height + 2 {
      assert Late(rows, lt) == Layout3(rows);
    } else {
      var s := Late(rows, lt);
      var next := s[lt := Line(s[lt].origin, Pad(s[lt].cells))];
      assert next == Late(rows, lt + 1);
      assert BorderStep(s, height, lt) == Some(next);
      LateRun(rows, lt + 1);
    }
  }

  /** The step at outer index height - 1: the copy of row height - 2 is
      inserted at height - 1 and padded, which turns Early into Late. */
  lemma BottomCopyStep(rows: seq<seq<int>>)
    requires |rows| >= 2 && forall j :: 0 <= j < |rows| ==> |rows[j]| > 0
    ensures BorderStep(Early(rows, |rows| - 1), |rows|, |rows| - 1) == Some(Late(rows, |rows|))
  {
    var height := |rows|;
    var lt := height - 1;
    var s := Early(rows, lt);
    var grown := Insert(s, lt, Line(Copied, s[lt].cells));
    var next := grown[lt := Line(Copied, Pad(s[lt].cells))];
    var late := Late(rows, height);
    forall i | 0 <= i < height + 2
      ensures next[i] == late[i]
    {
      if i < lt {
        assert next[i] == s[i];
        if i > 0 {
          assert Origin3(height, i) == Shared(i - 1) && Source3(height, i) == i - 1;
        }
      } else if i == lt {
        assert Origin3(height, i) == Copied && Source3(height, i) == height - 2;
      } else {
        assert next[i] == s[i - 1];
        assert Origin3(height, i) == Shared(i - 2) && Source3(height, i) == i - 2;
      }
    }
    assert next == late;
  }

  /** Between the two copies, outer index lt only pads row lt. */
  lemma EarlyStep(rows: seq<seq<int>>, lt: nat)
    requires |rows| >= 2 && forall j :: 0 <= j < |rows| ==> |rows[j]| > 0
    requires 1 <= lt < |rows| - 1
    ensures BorderStep(Early(rows, lt), |rows|, lt) == Some(Early(rows, lt + 1))
  {
    var s := Early(rows, lt);
    var next := s[lt := Line(s[lt].origin, Pad(s[lt].cells))];
    assert next == Early(rows, lt + 1);
  }

  lemma {:induction false} EarlyRun(rows: seq<seq<int>>, lt: nat)
    requires |rows| >= 2 && forall j :: 0 <= j < |rows| ==> |rows[j]| > 0
    requires 1 <= lt <= |rows| - 1
    ensures AddBorders(Early(rows, lt), |rows|, 1, lt, 0) == Some(Layout3(rows))
    decreases |rows| - lt
  {
    var height := |rows|;
    var s := Early(rows, lt);
    if lt == height - 1 {
      BottomCopyStep(rows);
      assert AddBorders(s, height, 1, lt, 0) == AddBorders(Late(rows, height), height, 1, lt, 1);
      LateRun(rows, height);
    } else {
      EarlyStep(rows, lt);
      assert AddBorders(s, height, 1, lt, 0) == AddBorders(Early(rows, lt + 1), height, 1, lt + 1, 0);
      EarlyRun(rows, lt + 1);
    }
  }

  /** For a 3x3 kernel and an image of height >= 2 with non-empty rows,
      add_extra_borders produces exactly Layout3: height + 2 rows, each one
      padded once, the top row a copy of row 0, and the copy meant for the
      bottom edge inserted at index height - 1 and taken from row
      height - 2. */
  lemma BordersLayout3(rows: seq<seq<int>>)
    requires |rows| >= 2 && forall j :: 0 <= j < |rows| ==> |rows[j]| > 0
    ensures AddBorders(Initial(rows), |rows|, 1, 0, 0) == Some(Layout3(rows))
  {
    var height := |rows|;
    var s := Initial(rows);
    var grown := Insert(s, 0, Line(Copied, rows[0]));
    var next := grown[0 := Line(Copied, Pad(rows[0]))];
    assert BorderStep(s, height, 0) == Some(next);
    assert forall i :: 0 <= i < height + 1 ==> next[i] == Early(rows, 1)[i];
    assert next == Early(rows, 1);
    assert AddBorders(s, height, 1, 0, 0) == AddBorders(next, height, 1, 0, 1);
    EarlyRun(rows, 1);
  }
}
