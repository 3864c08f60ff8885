/** The recursive radiance estimate `ray_color`, in the two versions the
    repository holds: the library renderer's, which adds the emission
    met by the scattered ray and still recurses, and the older
    application renderer's, which returns as soon as the scattered ray
    meets an emitter.

    The estimator is modelled by the events along one path: `events(k)`
    is what the ray of bounce `k` meets, with every light-transport
    quantity already evaluated (emission, the sum of direct-light
    contributions, the BRDF throughput `brdf * cosine / pdf`, and the
    MIS-weighted emission that the scattered ray reaches). The recursion
    itself, the depth cut-off and the background are modelled exactly. */
module Shading {
  import opened Options
  import opened Vectors

  /** A sampled continuation: the factor applied to the recursive estimate,
      and the weighted emission added when the scattered ray hits a surface
      whose emission is not zero. */
  datatype Scatter = Scatter(throughput: Vec3, emission: Option<Vec3>)

  /** What the ray of one bounce meets: nothing (the y component of its
      unit direction picks the sky colour), or a surface with its emission,
      its direct lighting and the BRDF sample `scatter_importance` returned. */
  datatype Event =
    | Miss(dirY: real)
    | Surface(emitted: Vec3, direct: Vec3, scatter: Option<Scatter>)

  const White: Vec3 := Vec3(1.0, 1.0, 1.0)
  const SkyBlue: Vec3 := Vec3(0.5, 0.7, 1.0)

  /** The background: `(1 - t) white + t (0.5, 0.7, 1.0)` with
      `t = (y + 1) / 2`. For a unit direction it stays between white
      (straight down) and the sky blue (straight up). */
  function Sky(dirY: real): (c: Vec3)
    ensures -1.0 <= dirY <= 1.0 ==> 0.5 <= c.x <= 1.0 && 0.7 <= c.y <= 1.0
    ensures c.z == 1.0
    ensures dirY == -1.0 ==> c == White
    ensures dirY == 1.0 ==> c == SkyBlue
  {
    var t := 0.5 * (dirY + 1.0);
    Vectors.Add(Scale(1.0 - t, White), Scale(t, SkyBlue))
  }

  /** The library renderer's `ray_color(r, world, lights, depth)` on the
      path from bounce `k`: black at the depth limit, the sky on a miss,
      otherwise emission plus direct light plus, when the BRDF yields a
      sample, the emission it reaches and the weighted estimate of the
      next bounce at one less depth. */
  function RayColor(events: nat -> Event, k: nat, depth: int): (c: Vec3)
    ensures depth <= 0 ==> c == Zero
    ensures depth > 0 && events(k).Miss? ==> c == Sky(events(k).dirY)
    decreases if depth < 0 then 0 else depth
  {
    if depth <= 0 then Zero
    else match events(k)
      case Miss(dy) => Sky(dy)
      case Surface(em, direct, sc) =>
        var total := Vectors.Add(em, direct);
        if sc.None? then total
        else
          var withEmission := if sc.value.emission.Some? then Vectors.Add(total, sc.value.emission.value) else total;
          Vectors.Add(withEmission, Mul(sc.value.throughput, RayColor(events, k + 1, depth - 1)))
  }

  /** The application renderer's `ray_color`: as `RayColor`, except that a
      BRDF sample reaching an emitter ends the path there. */
  function RayColorEarly(events: nat -> Event, k: nat, depth: int): (c: Vec3)
    ensures depth <= 0 ==> c == Zero
    ensures depth > 0 && events(k).Miss? ==> c == Sky(events(k).dirY)
    decreases if depth < 0 then 0 else depth
  {
    if depth <= 0 then Zero
    else match events(k)
      case Miss(dy) => Sky(dy)
      case Surface(em, direct, sc) =>
        var total := Vectors.Add(em, direct);
        if sc.None? then total
        else if sc.value.emission.Some? then Vectors.Add(total, sc.value.emission.value)
        else Vectors.Add(total, Mul(sc.value.throughput, RayColorEarly(events, k + 1, depth - 1)))
  }

  /** The two paths agree on the `depth` bounces from `k`. */
  predicate AgreeOn(e1: nat -> Event, e2: nat -> Event, k: nat, depth: int) {
    forall m: nat :: k <= m < k + depth ==> e1(m) == e2(m)
  }

  /** The estimate reads at most `depth` bounces: paths that agree on
      them give the same colour, whatever happens further on. */
  lemma {:induction false} RayColorReadsDepth(e1: nat -> Event, e2: nat -> Event, k: nat, depth: int)
    requires AgreeOn(e1, e2, k, depth)
    ensures RayColor(e1, k, depth) == RayColor(e2, k, depth)
    decreases if depth < 0 then 0 else depth
  {
    if depth > 0 {
      assert e1(k) == e2(k);
      RayColorReadsDepth(e1, e2, k + 1, depth - 1);
    }
  }

  /** The same bound for the early-return version. */
  lemma {:induction false} RayColorEarlyReadsDepth(e1: nat -> Event, e2: nat -> Event, k: nat, depth: int)
    requires AgreeOn(e1, e2, k, depth)
    ensures RayColorEarly(e1, k, depth) == RayColorEarly(e2, k, depth)
    decreases if depth < 0 then 0 else depth
  {
    if depth > 0 {
      assert e1(k) == e2(k);
      RayColorEarlyReadsDepth(e1, e2, k + 1, depth - 1);
    }
  }

  /** Bounce `k`'s BRDF sample reaches an emitter. */
  predicate ReachesEmitter(e: Event) {
    e.Surface? && e.scatter.Some? && e.scatter.value.emission.Some?
  }

  /** In the early-return version a bounce whose BRDF sample reaches an
      emitter is the last one read: later bounces do not matter. */
  lemma EarlyStopsAtEmitter(e1: nat -> Event, e2: nat -> Event, k: nat, depth: int)
    requires depth > 0 && e1(k) == e2(k) && ReachesEmitter(e1(k))
    ensures RayColorEarly(e1, k, depth) == RayColorEarly(e2, k, depth)
    ensures RayColorEarly(e1, k, depth) ==
      Vectors.Add(Vectors.Add(e1(k).emitted, e1(k).direct), e1(k).scatter.value.emission.value)
  {}

  /** No bounce within the depth limit has a BRDF sample reaching an
      emitter. */
  predicate NoEmitterReached(events: nat -> Event, k: nat, depth: int) {
    forall m: nat :: k <= m < k + depth ==> !ReachesEmitter(events(m))
  }

  /** Where no BRDF sample reaches an emitter the two versions of the
      estimator compute the same colour. */
  lemma {:induction false} VersionsAgreeWithoutEmitters(events: nat -> Event, k: nat, depth: int)
    requires NoEmitterReached(events, k, depth)
    ensures RayColor(events, k, depth) == RayColorEarly(events, k, depth)
    decreases if depth < 0 then 0 else depth
  {
    if depth > 0 {
      assert !ReachesEmitter(events(k));
      VersionsAgreeWithoutEmitters(events, k + 1, depth - 1);
    }
  }
}
