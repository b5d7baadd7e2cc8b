/** String helpers shared by the matcher and the author renderer: Python's
    `sep.join(parts)` and `"".join(parts)`. */
module Strings {

  /** `sep.join(parts)`: the parts in order, one separator between neighbours. */
  function Join(parts: seq<string>, sep: string): string
  {
    if |parts| == 0 then ""
    else if |parts| == 1 then parts[0]
    else parts[0] + sep + Join(parts[1..], sep)
  }

  /** `"".join(parts)`. */
  function Concat(parts: seq<string>): string
  {
    if parts == [] then "" else parts[0] + Concat(parts[1..])
  }

  /** Appending one part at the end adds one separator (when there was a part
      before) and the part; this is how an accumulating loop builds a join. */
  lemma {:induction false} JoinSnoc(parts: seq<string>, last: string, sep: string)
    ensures Join(parts + [last], sep) ==
            if parts == [] then last else Join(parts, sep) + sep + last
  {
    if |parts| == 1 {
      assert (parts + [last])[1..] == [last];
    } else if |parts| > 1 {
      assert (parts + [last])[1..] == parts[1..] + [last];
      JoinSnoc(parts[1..], last, sep);
    }
  }

  /** Every part of length at least `k` contributes at least `k` characters. */
  lemma {:induction false} ConcatLengthAtLeast(parts: seq<string>, k: nat)
    requires forall i :: 0 <= i < |parts| ==> |parts[i]| >= k
    ensures |Concat(parts)| >= k * |parts|
  {
    if parts != [] {
      ConcatLengthAtLeast(parts[1..], k);
    }
  }
}
