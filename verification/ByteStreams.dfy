/** Readers whose environment decides how many bytes each read delivers. */
module ByteStreams {
  import opened Common

  /** How many bytes one read with room for `max` delivers: at least one unless the stream is at its
      end, never more than there is room for, otherwise as the environment's next cut says. */
  function Delivered(rest: Bytes, cuts: seq<nat>, max: nat): (n: nat)
    ensures n <= |rest| && n <= max
    ensures n == 0 <==> rest == [] || max == 0
  {
    var wanted: int := if cuts == [] then max else Max(1, cuts[0]);
    Min(wanted, Min(max, |rest|))
  }

  function Later(cuts: seq<nat>): seq<nat> {
    if cuts == [] then [] else cuts[1..]
  }

  class Reader {
    var rest: Bytes
    var cuts: seq<nat>

    constructor (content: Bytes, cuts: seq<nat>)
      ensures rest == content && this.cuts == cuts
    {
      rest, this.cuts := content, cuts;
    }

    method Read(max: nat) returns (got: Bytes)
      modifies this
      ensures var n := Delivered(old(rest), old(cuts), max);
        got == old(rest)[..n] && rest == old(rest)[n..] && cuts == Later(old(cuts))
    {
      var n := Delivered(rest, cuts, max);
      got, rest, cuts := rest[..n], rest[n..], Later(cuts);
    }
  }
}
