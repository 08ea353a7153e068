/**
  The never-go-backwards millisecond clock of nsu_getmonotonic_ms.

  The platform reading, already converted to milliseconds (module
  TimeUnits), is the `raw` value. A hidden 64-bit `prev` starts at 0. When
  `raw` is strictly later than `prev`, it is reported and stored; otherwise
  `prev` is incremented (with unsigned 64-bit wrap-around) and reported.
 */
module MonotonicTime {

  const Two64: nat := 0x1_0000_0000_0000_0000
  const U64Max: nat := Two64 - 1

  /** An unsigned 64-bit integer. */
  type U64 = x: nat | x < 0x1_0000_0000_0000_0000

  /** The status code of the operation; it only ever reports success. */
  datatype NsuError = Ok

  function Max(a: nat, b: nat): nat { if a < b then b else a }

  /** One call: the value reported, which is also the new `prev`. Below
      the wrap-around point it is strictly later than `prev` and no earlier
      than the reading; at the very top, `prev += 1` wraps to 0. */
  function Next(prev: U64, raw: U64): (r: U64)
    ensures prev < U64Max ==> prev < r && raw <= r
    ensures prev == U64Max ==> r == 0
  {
    if raw > prev then raw else (prev + 1) % Two64
  }

  /** Below the wrap-around point, a call reports the least value that is
      both no earlier than the source and strictly later than the last
      report: max(raw, prev + 1). */
  lemma NextIsLeastAdvance(prev: U64, raw: U64)
    ensures prev < U64Max ==> Next(prev, raw) == Max(raw, prev + 1)
  {
  }

  /** A raw value is passed through exactly when it advances past `prev`. */
  lemma NextPassesThrough(prev: U64, raw: U64)
    ensures Next(prev, raw) == raw <==> raw > prev || (raw == 0 && prev == U64Max)
  {
  }

  /** An equal or regressing raw value is ignored: the report is `prev + 1`,
      wrapping to 0 at the top of the 64-bit range. */
  lemma NextSynthesizes(prev: U64, raw: U64)
    requires raw <= prev
    ensures Next(prev, raw) == (prev + 1) % Two64
    ensures forall other: U64 {:trigger Next(prev, other)} :: other <= prev ==> Next(prev, other) == Next(prev, raw)
  {
  }

  /** The very first call, with `prev` at its initial 0 and a raw reading of
      0, reports 1: the first instant is never "no time has passed". */
  lemma FirstCallAtZero()
    ensures Next(0, 0) == 1
  {
  }

  /** The values reported by a sequence of calls starting from `prev`. */
  function Run(prev: U64, raws: seq<U64>): (outs: seq<U64>)
    ensures |outs| == |raws|
    decreases |raws|
  {
    if raws == [] then [] else
      var n := Next(prev, raws[0]);
      [n] + Run(n, raws[1..])
  }

  /** The value of `prev` after a sequence of calls starting from `prev`:
      after every call it is the value last reported. */
  function Final(prev: U64, raws: seq<U64>): (p: U64)
    ensures raws != [] ==> p == Run(prev, raws)[|raws| - 1]
    decreases |raws|
  {
    if raws == [] then prev else Final(Next(prev, raws[0]), raws[1..])
  }

  predicate StrictlyIncreasing(s: seq<nat>)
  {
    forall i, j :: 0 <= i < j < |s| ==> s[i] < s[j]
  }

  predicate AllAtMost(s: seq<nat>, b: nat)
  {
    forall i :: 0 <= i < |s| ==> s[i] <= b
  }

  /** One more call extends the run by the report of that call. */
  lemma {:induction false} RunSnoc(prev: U64, raws: seq<U64>, raw: U64)
    ensures Run(prev, raws + [raw]) == Run(prev, raws) + [Next(Final(prev, raws), raw)]
    ensures Final(prev, raws + [raw]) == Next(Final(prev, raws), raw)
    decreases |raws|
  {
    if raws == [] {
      assert raws + [raw] == [raw];
    } else {
      assert (raws + [raw])[1..] == raws[1..] + [raw];
      RunSnoc(Next(prev, raws[0]), raws[1..], raw);
    }
  }

  /** Whatever raw values are supplied, including equal or regressing ones,
      the reports strictly increase, each is later than the starting `prev`
      and no earlier than its raw value, and the drift is bounded: the i-th
      report is at most b + i + 1 where b bounds `prev` and every raw value.
      The bound b + |raws| <= 2^64 - 1 keeps `prev += 1` from wrapping; it
      is conservative (a run may reach the top with its last call and still
      increase), and the exact per-call condition is the one of
      MonotonicClock.GetMonotonicMs. */
  lemma {:induction false} RunStrictlyIncreasing(prev: U64, raws: seq<U64>, b: nat)
    requires prev <= b && AllAtMost(raws, b) && b + |raws| <= U64Max
    ensures StrictlyIncreasing(Run(prev, raws))
    ensures forall i :: 0 <= i < |raws| ==> prev < Run(prev, raws)[i]
    ensures forall i :: 0 <= i < |raws| ==> raws[i] <= Run(prev, raws)[i] <= b + i + 1
    decreases |raws|
  {
    if raws != [] {
      var n := Next(prev, raws[0]);
      var rest := raws[1..];
      assert n <= b + 1;
      RunStrictlyIncreasing(n, rest, b + 1);
      var outs := Run(prev, raws);
      assert outs == [n] + Run(n, rest);
      forall i | 1 <= i < |raws|
        ensures n < outs[i] && raws[i] <= outs[i] <= b + i + 1
      {
        assert outs[i] == Run(n, rest)[i - 1];
        assert raws[i] == rest[i - 1];
      }
    }
  }

  /** A raw source that strictly increases past `prev` is reported unchanged. */
  lemma {:induction false} RunPassesThrough(prev: U64, raws: seq<U64>)
    requires StrictlyIncreasing(raws)
    requires raws != [] ==> prev < raws[0]
    ensures Run(prev, raws) == raws
    decreases |raws|
  {
    if raws != [] {
      var rest := raws[1..];
      assert StrictlyIncreasing(rest) by {
        forall i, j | 0 <= i < j < |rest| ensures rest[i] < rest[j] {
          assert rest[i] == raws[i + 1] && rest[j] == raws[j + 1];
        }
      }
      if rest != [] {
        assert rest[0] == raws[1];
      }
      RunPassesThrough(raws[0], rest);
    }
  }

  /** Three calls landing in the same tick r report r, r + 1, r + 2. */
  lemma TiesCollapse(prev: U64, r: U64)
    requires prev < r && r + 2 <= U64Max
    ensures Run(prev, [r, r, r]) == [r, r + 1, r + 2]
  {
    assert [r, r, r][1..] == [r, r];
    assert [r, r][1..] == [r];
    assert Run(r + 1, [r]) == [r + 2];
    assert Run(r, [r, r]) == [r + 1, r + 2];
  }

  /** The process-wide clock state: the last reported time `prev`. */
  class MonotonicClock {
    var prev: U64
    /** The raw values supplied so far, and the values reported for them. */
    ghost var raws: seq<U64>
    ghost var reported: seq<U64>

    ghost predicate Valid()
      reads this
    {
      reported == Run(0, raws) && prev == Final(0, raws)
    }

    /** The state at process start: nothing reported yet, `prev` is 0. */
    constructor ()
      ensures Valid() && prev == 0 && raws == [] && reported == []
    {
      prev := 0;
      raws := [];
      reported := [];
    }

    /** nsu_getmonotonic_ms, given the reading already converted to
        milliseconds: reports `raw` and stores it when it is later than
        `prev`, otherwise increments `prev` and reports that. */
    method GetMonotonicMs(raw: U64) returns (status: NsuError, current: U64)
      requires Valid()
      modifies this
      ensures Valid()
      ensures status == Ok
      ensures raws == old(raws) + [raw] && reported == old(reported) + [current]
      ensures prev == current
      ensures raw > old(prev) ==> current == raw
      ensures raw <= old(prev) ==> current == (old(prev) + 1) % Two64
      ensures old(prev) < U64Max ==> old(prev) < current
      ensures old(prev) < U64Max && StrictlyIncreasing(old(reported)) ==> StrictlyIncreasing(reported)
    {
      if raw > prev {
        current := raw;
        prev := current;
      } else {
        prev := (prev + 1) % Two64;
        current := prev;
      }
      status := Ok;
      RunSnoc(0, raws, raw);
      raws := raws + [raw];
      reported := reported + [current];
    }
  }
}
