/** The "Go to line" box of the editor (`validate_goto_point` in
    `src/bin/edit/draw_editor.rs`): text of the form `line[:column]`, both counted from
    1, becomes a 0-based point. Coordinates are `CoordType`, a 64-bit `isize`. */
module GotoPoint {
  import opened Wrappers
  import opened Strings
  import opened Decimal

  /** `Point { x, y }`: `x` is the column and `y` the line. */
  datatype Point = Point(x: int, y: int)

  /** `v.saturating_sub(1)` on `isize`: one less, except at the bottom of the range. */
  function SaturatingDecrement(v: int): (r: int)
    requires ISIZE_MIN <= v <= ISIZE_MAX
    ensures ISIZE_MIN <= r <= ISIZE_MAX
    ensures r == v - 1 || (r == v && v == ISIZE_MIN)
  {
    if v - 1 < ISIZE_MIN then ISIZE_MIN else v - 1
  }

  /** One coordinate: the text parsed as an `isize`, then made 0-based. */
  function Coordinate(s: string): Result<int, ParseIntError> {
    ParseSignedBound(s, ISIZE_MIN, ISIZE_MAX);
    match ParseSigned(s, ISIZE_MIN, ISIZE_MAX)
    case Ok(v) => Ok(SaturatingDecrement(v))
    case Err(e) => Err(e)
  }

  /** The line text and the column text: the pieces around the first `:`, or the whole
      input and `"0"` when there is no `:`. */
  function Parts(line: string): (string, string) {
    match SplitOnce(line, ":")
    case Some(p) => p
    case None => (line, "0")
  }

  /** What `validate_goto_point` computes: the column is parsed first, so when both
      pieces are bad the column's error is the one reported. */
  function GotoTarget(line: string): Result<Point, ParseIntError> {
    var (y, x) := Parts(line);
    match Coordinate(x)
    case Err(e) => Err(e)
    case Ok(cx) =>
      match Coordinate(y)
      case Err(e) => Err(e)
      case Ok(cy) => Ok(Point(cx, cy))
  }

  /** `validate_goto_point`: fills the two coordinates in a loop over the column and
      line texts, leaving at the first one that does not parse. */
  method ValidateGotoPoint(line: string) returns (r: Result<Point, ParseIntError>)
    ensures r == GotoTarget(line)
  {
    var coords := new int[2](_ => 0);
    var split := SplitOnce(line, ":");
    var (y, x) := if split.Some? then split.value else (line, "0");
    assert (y, x) == Parts(line);
    var texts := [x, y];
    for i := 0 to 2
      invariant forall k :: 0 <= k < i ==> Coordinate(texts[k]).Ok? && coords[k] == Coordinate(texts[k]).value
    {
      ParseSignedBound(texts[i], ISIZE_MIN, ISIZE_MAX);
      match ParseSigned(texts[i], ISIZE_MIN, ISIZE_MAX)
      case Err(e) =>
        assert Coordinate(texts[i]) == Err(e);
        assert i == 1 ==> Coordinate(texts[0]).Ok?;
        return Err(e);
      case Ok(v) =>
        coords[i] := SaturatingDecrement(v);
    }
    return Ok(Point(coords[0], coords[1]));
  }

  /** The line text is everything before the first `:` and the column text everything
      after it; without a `:` the column text is `"0"`. */
  lemma PartsSpec(line: string)
    ensures var (y, x) := Parts(line);
      (':' in line ==> line == y + ":" + x && ':' !in y) &&
      (':' !in line ==> y == line && x == "0")
  {
    SplitOnceSpec(line, ":");
    var (y, x) := Parts(line);
    if ':' in line {
      var i :| 0 <= i < |line| && line[i] == ':';
      assert line[i..i + 1] == ":";
      assert MatchAt(line, ":", i);
      forall k | 0 <= k < |y| ensures y[k] != ':' {
        assert line[k] == y[k];
        assert line[k..k + 1] == [line[k]];
        assert !MatchAt(line, ":", k);
      }
    } else {
      NoMatchWithout(line, ':');
    }
  }

  /** A point typed as its 1-based line and column reads back as that point. */
  lemma GotoRoundTrip(x: nat, y: nat)
    requires x < ISIZE_MAX && y < ISIZE_MAX
    ensures GotoTarget(Show(y + 1) + ":" + Show(x + 1)) == Ok(Point(x, y))
  {
    var ys, xs := Show(y + 1), Show(x + 1);
    assert forall k :: 0 <= k < |ys| ==> ys[k] != ':' by {
      forall k | 0 <= k < |ys| ensures ys[k] != ':' { assert IsDigit(ys[k]); }
    }
    SplitOnceBefore(ys, ":", xs);
    assert Parts(ys + ":" + xs) == (ys, xs);
    ParseSignedShow(y + 1, ISIZE_MIN, ISIZE_MAX);
    ParseSignedShow(x + 1, ISIZE_MIN, ISIZE_MAX);
    assert Coordinate(xs) == Ok(x) && Coordinate(ys) == Ok(y);
  }

  /** A line number without a column goes to that line, with the column text `"0"`
      giving the column just before the first. */
  lemma GotoLineOnly(y: nat)
    requires y < ISIZE_MAX
    ensures GotoTarget(Show(y + 1)) == Ok(Point(-1, y))
  {
    var ys := Show(y + 1);
    assert ':' !in ys by {
      forall k | 0 <= k < |ys| ensures ys[k] != ':' { assert IsDigit(ys[k]); }
    }
    PartsSpec(ys);
    ParseSignedShow(y + 1, ISIZE_MIN, ISIZE_MAX);
    ParseSignedShow(0, ISIZE_MIN, ISIZE_MAX);
  }

  /** A second `:` lands in the column text, which then does not parse. */
  lemma GotoSecondColon(y: string, x: string)
    requires ':' !in y && ':' in x
    ensures GotoTarget(y + ":" + x).Err?
  {
    SplitOnceBefore(y, ":", x);
    var i :| 0 <= i < |x| && x[i] == ':';
    ScanOk(x, ISIZE_MAX, PosOverflow);
    if x != [] {
      ScanOk(x[1..], ISIZE_MAX, PosOverflow);
      ScanOk(x[1..], -ISIZE_MIN, NegOverflow);
      if i > 0 {
        assert !IsDigit(x[1..][i - 1]);
      }
    }
  }

  /** An empty column text is an error, `Empty` from the parse, and so is an empty
      input. */
  lemma GotoEmptyParts(y: string)
    requires ':' !in y
    ensures GotoTarget(y + ":") == Err(Empty)
    ensures GotoTarget("") == Err(Empty)
  {
    SplitOnceBefore(y, ":", "");
    assert y + ":" + "" == y + ":";
    PartsSpec("");
    ParseSignedShow(0, ISIZE_MIN, ISIZE_MAX);
  }

  /** An empty line text before a good column is an error too: the column parses, then
      the line text gives `Empty`. */
  lemma GotoEmptyLine(x: nat)
    requires x <= ISIZE_MAX
    ensures GotoTarget(":" + Show(x)) == Err(Empty)
  {
    var xs := Show(x);
    SplitOnceBefore("", ":", xs);
    assert "" + ":" + xs == ":" + xs;
    ParseSignedShow(x, ISIZE_MIN, ISIZE_MAX);
  }
}
