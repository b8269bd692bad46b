/** Rejection sampling of points in the unit ball and the unit disk (Sampling.hpp).
    `uniformRand()` (Random.hpp) draws from [0, 1); its generator is not modelled: a sampler
    reads its draws from a finite stream and returns the unread rest, or None when the stream
    runs out before a candidate is accepted. */
module Sampling {
  import opened Scalar
  import opened Vectors
  import opened Wrappers

  /** Every draw lies in [0, 1), as `uniformRand()` promises. */
  predicate UniformDraws(rs: seq<real>) {
    forall i :: 0 <= i < |rs| ==> 0.0 <= rs[i] < 1.0
  }

  /** `sampleUnitSphere` reads three draws per candidate, `sampleUnitDisk` two. */
  datatype Region = Ball | Disk

  function Width(region: Region): nat {
    match region
    case Ball => 3
    case Disk => 2
  }

  /** The candidate built from one block of draws: `2 (a, b, c) - 1` for the ball and
      `2 (a, b, 0) - (1, 1, 0)` for the disk. */
  function Candidate(region: Region, d: seq<real>): Vec3
    requires |d| == Width(region)
  {
    match region
    case Ball => SubScalar(Scale(Vec3(d[0], d[1], d[2]), 2.0), 1.0)
    case Disk => Sub(Scale(Vec3(d[0], d[1], 0.0), 2.0), Vec3(1.0, 1.0, 0.0))
  }

  /** A candidate is rejected when it lies on or outside the unit sphere. */
  predicate Rejected(v: Vec3) {
    SquaredLength(v) >= 1.0
  }

  /** Candidates of draws from [0, 1) lie in the cube [-1, 1)^3, and disk candidates in the
      plane z = 0. */
  predicate InCube(v: Vec3) {
    -1.0 <= v.x < 1.0 && -1.0 <= v.y < 1.0 && -1.0 <= v.z < 1.0
  }

  datatype Sample = Sample(value: Vec3, rest: seq<real>)

  /** The do/while rejection loop: draw a block, retry while the candidate is rejected. */
  function SampleIn(region: Region, rs: seq<real>): (r: Option<Sample>)
    ensures r.Some? ==> !Rejected(r.value.value)
    ensures r.Some? ==> |r.value.rest| + Width(region) <= |rs| && r.value.rest == rs[|rs| - |r.value.rest|..]
    ensures r.Some? && region == Disk ==> r.value.value.z == 0.0
    ensures r.Some? && UniformDraws(rs) ==> InCube(r.value.value)
    decreases |rs|
  {
    var w := Width(region);
    if |rs| < w then None
    else
      var v := Candidate(region, rs[..w]);
      if Rejected(v) then SampleIn(region, rs[w..]) else Some(Sample(v, rs[w..]))
  }

  function SampleUnitSphere(rs: seq<real>): Option<Sample> { SampleIn(Ball, rs) }

  function SampleUnitDisk(rs: seq<real>): Option<Sample> { SampleIn(Disk, rs) }

  /** The number of draws up to the end of the j-th block. */
  function BlockLimit(region: Region, j: nat): nat {
    (j + 1) * Width(region)
  }

  /** The j-th block of draws as a candidate. */
  function CandidateAt(region: Region, rs: seq<real>, j: nat): Vec3
    requires BlockLimit(region, j) <= |rs|
  {
    Candidate(region, rs[j * Width(region)..(j + 1) * Width(region)])
  }

  /** Dropping the first block shifts the candidate numbering by one. */
  lemma CandidateShift(region: Region, rs: seq<real>, j: nat)
    requires (j + 2) * Width(region) <= |rs|
    ensures CandidateAt(region, rs[Width(region)..], j) == CandidateAt(region, rs, j + 1)
  {
    var w := Width(region);
    assert (j + 2) * w == (j + 1) * w + w;
    assert (j + 1) * w == j * w + w;
    assert rs[w..][j * w..(j + 1) * w] == rs[(j + 1) * w..(j + 2) * w];
  }

  /** The sample is the first accepted candidate, and the draws after its block are left. */
  lemma {:induction false} SampleFirstAccepted(region: Region, rs: seq<real>, k: nat)
    requires BlockLimit(region, k) <= |rs|
    requires forall j: nat :: j < k ==> Rejected(CandidateAt(region, rs, j))
    requires !Rejected(CandidateAt(region, rs, k))
    ensures SampleIn(region, rs) == Some(Sample(CandidateAt(region, rs, k), rs[BlockLimit(region, k)..]))
    decreases k
  {
    var w := Width(region);
    assert CandidateAt(region, rs, 0) == Candidate(region, rs[..w]);
    if k > 0 {
      assert Rejected(CandidateAt(region, rs, 0));
      assert (k + 1) * w == k * w + w;
      forall j: nat | j < k - 1
        ensures Rejected(CandidateAt(region, rs[w..], j))
      {
        CandidateShift(region, rs, j);
      }
      CandidateShift(region, rs, k - 1);
      SampleFirstAccepted(region, rs[w..], k - 1);
      assert rs[w..][k * w..] == rs[(k + 1) * w..];
    }
  }

  /** Every complete block of the stream is rejected. */
  ghost predicate AllRejected(region: Region, rs: seq<real>) {
    forall j: nat :: BlockLimit(region, j) <= |rs| ==> Rejected(CandidateAt(region, rs, j))
  }

  lemma BlockEnd(j: nat, w: nat)
    ensures (j + 1) * w == j * w + w && w <= (j + 1) * w
  {
  }

  /** All blocks are rejected exactly when the first one is and all blocks after it are. */
  lemma AllRejectedStep(region: Region, rs: seq<real>)
    requires Width(region) <= |rs|
    ensures AllRejected(region, rs) <==>
            Rejected(CandidateAt(region, rs, 0)) && AllRejected(region, rs[Width(region)..])
  {
    var w := Width(region);
    if AllRejected(region, rs) {
      forall j: nat | (j + 1) * w <= |rs[w..]|
        ensures Rejected(CandidateAt(region, rs[w..], j))
      {
        BlockEnd(j + 1, w);
        CandidateShift(region, rs, j);
      }
    }
    if Rejected(CandidateAt(region, rs, 0)) && AllRejected(region, rs[w..]) {
      forall j: nat | (j + 1) * w <= |rs|
        ensures Rejected(CandidateAt(region, rs, j))
      {
        if j > 0 {
          BlockEnd(j, w);
          CandidateShift(region, rs, j - 1);
        }
      }
    }
  }

  /** The stream runs out exactly when every complete block in it is rejected. */
  lemma {:induction false} SampleExhausted(region: Region, rs: seq<real>)
    ensures SampleIn(region, rs) == None <==> AllRejected(region, rs)
    decreases |rs|
  {
    var w := Width(region);
    if |rs| >= w {
      assert CandidateAt(region, rs, 0) == Candidate(region, rs[..w]);
      SampleExhausted(region, rs[w..]);
      AllRejectedStep(region, rs);
    } else {
      forall j: nat
        ensures |rs| < BlockLimit(region, j)
      {
        BlockEnd(j, w);
      }
    }
  }
}
