/** The light list (`LightList`): an ordered collection of lights with
    uniform random selection. A light is any value of the type parameter
    `L`; what a light does (sampling a point, its pdf, its colour) is not
    used by the list. */
module Lights {
  import opened Options
  import opened RealArith

  /** `usize::MAX`. */
  const UsizeMax: nat := 0xFFFF_FFFF_FFFF_FFFF

  datatype LightList<L> = LightList(lights: seq<L>)

  /** `LightList::new()`. */
  function New<L>(): (l: LightList<L>)
    ensures |l.lights| == 0
  {
    LightList([])
  }

  /** `add(light)`: the new light goes last, the earlier ones keep their
      places. */
  function Add<L>(l: LightList<L>, light: L): (r: LightList<L>)
    ensures |r.lights| == |l.lights| + 1
    ensures r.lights[..|l.lights|] == l.lights && r.lights[|l.lights|] == light
  {
    LightList(l.lights + [light])
  }

  /** `x as usize` for a float: truncation toward zero, saturating at both
      ends of the unsigned range. */
  function ToUsize(x: real): (n: nat)
    ensures n <= UsizeMax
    ensures x <= 0.0 ==> n == 0
    ensures 0.0 <= x < UsizeMax as real ==> n as real <= x < (n as real) + 1.0
  {
    if x <= 0.0 then 0 else if x >= UsizeMax as real then UsizeMax else x.Floor
  }

  /** The index `(draw * len) as usize` that `sample()` reads. */
  function SampleIndex(len: nat, draw: real): nat {
    ToUsize(draw * (len as real))
  }

  /** `sample()` with the uniform draw from `[0, 1)` passed in: `None` for
      an empty list, otherwise the light at index `(draw * len) as usize`
      when that index is inside the list (`Vec::get`). */
  function Sample<L>(l: LightList<L>, draw: real): (r: Option<L>)
    ensures |l.lights| == 0 ==> r.None?
    ensures r.Some? ==> exists i :: 0 <= i < |l.lights| && r.value == l.lights[i]
  {
    if |l.lights| == 0 then None
    else
      var i := SampleIndex(|l.lights|, draw);
      if i < |l.lights| then Some(l.lights[i]) else None
  }

  /** For a draw in `[0, 1)` (and a list no longer than a `Vec` can be)
      the index is inside the list, so `sample` returns `None` exactly for
      the empty list; the light it returns is the one at index `i` whose
      slice `[i / len, (i + 1) / len)` of the unit interval holds the
      draw. */
  lemma SampleInRange<L>(l: LightList<L>, draw: real)
    requires 0.0 <= draw < 1.0 && |l.lights| <= UsizeMax
    ensures Sample(l, draw).None? <==> |l.lights| == 0
    ensures |l.lights| > 0 ==> SampleIndex(|l.lights|, draw) < |l.lights|
    ensures |l.lights| > 0 ==> Sample(l, draw) == Some(l.lights[SampleIndex(|l.lights|, draw)])
    ensures |l.lights| > 0 ==>
      var i := SampleIndex(|l.lights|, draw) as real;
      i <= draw * (|l.lights| as real) < i + 1.0
  {
    if |l.lights| > 0 {
      IndexInSlice(|l.lights|, draw);
    }
  }

  lemma IndexInSlice(len: nat, draw: real)
    requires 0 < len <= UsizeMax && 0.0 <= draw < 1.0
    ensures SampleIndex(len, draw) < len
    ensures (SampleIndex(len, draw) as real) <= draw * (len as real) < (SampleIndex(len, draw) as real) + 1.0
  {
    var p := draw * (len as real);
    FractionOfSpan(len as real, draw, (len as real) * draw);
    assert 0.0 <= p < len as real;
  }
}
