/** Python's `str.join`, the only string operation the pipeline uses. */
module Text {

  /** `sep.join(parts)`: the parts in order, with `sep` between neighbours. */
  function Join(parts: seq<string>, sep: string): (r: string)
    ensures |parts| == 0 ==> r == ""
    ensures |parts| == 1 ==> r == parts[0]
    ensures |parts| > 0 ==> parts[0] <= r
    ensures |parts| > 1 ==> |r| >= |parts[0]| + |sep|
  {
    if |parts| == 0 then ""
    else if |parts| == 1 then parts[0]
    else parts[0] + sep + Join(parts[1..], sep)
  }

  /** With a non-empty separator the joined string is empty exactly when there
      is nothing to join or the only part is itself empty. */
  lemma JoinEmptyIff(parts: seq<string>, sep: string)
    requires |sep| > 0
    ensures Join(parts, sep) == "" <==> |parts| == 0 || (|parts| == 1 && parts[0] == "")
  {
    if |parts| > 1 {
      assert |Join(parts, sep)| >= |sep|;
    }
  }

  /** Appending a part adds the separator and that part at the end, so the
      right-nested definition agrees with the left-to-right reading of
      `str.join`. */
  lemma {:induction false} JoinSnoc(parts: seq<string>, p: string, sep: string)
    requires |parts| > 0
    ensures Join(parts + [p], sep) == Join(parts, sep) + sep + p
  {
    if |parts| == 1 {
      assert parts + [p] == [parts[0], p];
      assert [parts[0], p][1..] == [p];
    } else {
      assert (parts + [p])[1..] == parts[1..] + [p];
      JoinSnoc(parts[1..], p, sep);
    }
  }
}
