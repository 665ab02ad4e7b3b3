/** String helpers behind the record's printed form and the search statement. */
module Strings {

  /** The parts with `sep` between each pair of neighbours, as Python's `sep.join(parts)`. */
  function Join(parts: seq<string>, sep: string): string
  {
    if |parts| == 0 then ""
    else if |parts| == 1 then parts[0]
    else parts[0] + sep + Join(parts[1..], sep)
  }

  /** The summed lengths of the parts. */
  function TotalLength(parts: seq<string>): nat
  {
    if |parts| == 0 then 0 else |parts[0]| + TotalLength(parts[1..])
  }

  /** Appending a part to a join adds one separator (none to an empty join) and then that part. */
  lemma {:induction false} JoinAppend(parts: seq<string>, sep: string, last: string)
    ensures Join(parts + [last], sep) == if parts == [] then last else Join(parts, sep) + sep + last
  {
    if |parts| > 1 {
      assert (parts + [last])[1..] == parts[1..] + [last];
      JoinAppend(parts[1..], sep, last);
    }
  }

  /** A join of n > 0 parts holds exactly n - 1 separators next to the parts themselves. */
  lemma {:induction false} JoinLength(parts: seq<string>, sep: string)
    ensures |Join(parts, sep)| == TotalLength(parts) + (if parts == [] then 0 else (|parts| - 1) * |sep|)
  {
    if |parts| == 1 {
      assert TotalLength(parts) == |parts[0]| + TotalLength(parts[1..]);
    } else if |parts| > 1 {
      JoinLength(parts[1..], sep);
      assert (|parts| - 1) * |sep| == (|parts| - 2) * |sep| + |sep|;
    }
  }

  /** One step of building `prefix` + a join part by part: the separator unless it is the first part, then the part. */
  lemma JoinExtend(prefix: string, parts: seq<string>, sep: string, part: string)
    ensures (if |parts| > 0 then prefix + Join(parts, sep) + sep + part else prefix + Join(parts, sep) + part) ==
            prefix + Join(parts + [part], sep)
  {
    JoinAppend(parts, sep, part);
    var joined := Join(parts, sep);
    if |parts| > 0 {
      assert (prefix + joined) + sep + part == prefix + (joined + sep + part);
    } else {
      assert joined == "";
    }
  }
}
