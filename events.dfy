/** The sensor log rows, the intervals derived from them and the failures of the pipeline. */
module Events {

  /** One log row: (time, board, event type, data0, data1), all numeric. */
  datatype Row = Row(time: int, board: int, event: int, data0: int, data1: int)

  /**
   * An interval derived from one channel: a beam interval is (start, end, duration),
   * an RFID interval is (start, end, duration, tag id).
   */
  datatype Interval =
    | BeamInterval(start: int, end: int, duration: int)
    | RfidInterval(start: int, end: int, duration: int, tag: int)

  /** The numeric codes of the log's constant tables: event types and beam sides. */
  datatype Codes = Codes(beam: int, rfid: int, beamLeft: int, beamRight: int)

  /** The exceptions the pipeline raises. */
  datatype Error =
    | NotSplitBySide  // a beam stream whose data0 column does not hold exactly one value
    | NotOneBoard     // a table whose board column does not hold exactly one value
    | NoFrame         // trimming ran off the end of the stream (an index error)
    | ShapeMismatch   // a strided column could not be broadcast onto the output
    | NoEvents        // an empty column was indexed, or its least element asked for

  function Times(rows: seq<Row>): (ts: seq<int>)
    ensures |ts| == |rows| && forall i :: 0 <= i < |rows| ==> ts[i] == rows[i].time
  {
    seq(|rows|, i requires 0 <= i < |rows| => rows[i].time)
  }

  function Boards(rows: seq<Row>): (bs: seq<int>)
    ensures |bs| == |rows| && forall i :: 0 <= i < |rows| ==> bs[i] == rows[i].board
  {
    seq(|rows|, i requires 0 <= i < |rows| => rows[i].board)
  }

  function Data0s(rows: seq<Row>): (ds: seq<int>)
    ensures |ds| == |rows| && forall i :: 0 <= i < |rows| ==> ds[i] == rows[i].data0
  {
    seq(|rows|, i requires 0 <= i < |rows| => rows[i].data0)
  }

  function EventCodes(rows: seq<Row>): (es: seq<int>)
    ensures |es| == |rows| && forall i :: 0 <= i < |rows| ==> es[i] == rows[i].event
  {
    seq(|rows|, i requires 0 <= i < |rows| => rows[i].event)
  }

  function Data1s(rows: seq<Row>): (ds: seq<int>)
    ensures |ds| == |rows| && forall i :: 0 <= i < |rows| ==> ds[i] == rows[i].data1
  {
    seq(|rows|, i requires 0 <= i < |rows| => rows[i].data1)
  }

  /** The distinct values of a column (numpy.unique, as a set). */
  function Distinct(s: seq<int>): set<int>
  {
    set x | x in s
  }

  /** Two different values in a column make at least two distinct values. */
  lemma TwoDistinct(s: seq<int>, i: int)
    requires 0 <= i < |s| && s[i] != s[0]
    ensures |Distinct(s)| >= 2
  {
    assert s[0] in Distinct(s);
    assert s[i] in Distinct(s) - {s[0]};
    assert |Distinct(s) - {s[0]}| == |Distinct(s)| - 1;
  }

  /** A column holds exactly one distinct value iff it is non-empty and constant. */
  lemma OneDistinct(s: seq<int>)
    ensures |Distinct(s)| == 1 <==> |s| > 0 && forall i :: 0 <= i < |s| ==> s[i] == s[0]
  {
    assert |s| == 0 ==> Distinct(s) == {};
    forall i | 0 <= i < |s| && s[i] != s[0] ensures |Distinct(s)| >= 2 {
      TwoDistinct(s, i);
    }
    if |s| > 0 && forall i :: 0 <= i < |s| ==> s[i] == s[0] {
      assert Distinct(s) == {s[0]};
    }
  }
}
