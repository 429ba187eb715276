/**
 * The progress cadence of the search: after a file is counted, a progress
 * line is reported when the running count is a multiple of 25,000.
 */
module Progress {

  /** The number of files between two progress reports. */
  const Cadence: nat := 25000

  /**
   * The counts reported, in order, while the counter goes from 0 up to n:
   * step c reports c when c is a multiple of the cadence.
   */
  function Milestones(n: nat): seq<nat>
  {
    if n == 0 then [] else Milestones(n - 1) + (if n % Cadence == 0 then [n] else [])
  }

  /** One report per full cadence: n files give n / 25,000 reports. */
  lemma {:induction false} MilestonesCount(n: nat)
    ensures |Milestones(n)| == n / Cadence
  {
    if n > 0 {
      MilestonesCount(n - 1);
      var q, r := (n - 1) / Cadence, (n - 1) % Cadence;
      assert n - 1 == q * Cadence + r && 0 <= r < Cadence;
      if r == Cadence - 1 {
        assert n == (q + 1) * Cadence;
      } else {
        assert n == q * Cadence + (r + 1) && r + 1 < Cadence;
      }
    }
  }

  /** A count is reported exactly when it is a positive multiple of the cadence not above n. */
  lemma {:induction false} MilestonesExact(n: nat)
    ensures forall c :: c in Milestones(n) <==> 1 <= c <= n && c % Cadence == 0
  {
    if n > 0 {
      MilestonesExact(n - 1);
    }
  }

  /** Reports come in strictly increasing order of the count. */
  lemma {:induction false} MilestonesIncreasing(n: nat)
    ensures forall a, b :: 0 <= a < b < |Milestones(n)| ==> Milestones(n)[a] < Milestones(n)[b]
  {
    if n > 0 {
      MilestonesIncreasing(n - 1);
      MilestonesExact(n - 1);
      var m := Milestones(n - 1);
      assert forall a :: 0 <= a < |m| ==> m[a] in m;
    }
  }

  /** 24,999 files give no report; 50,000 files give the reports 25,000 and 50,000. */
  lemma ProgressExamples()
    ensures Milestones(24999) == []
    ensures Milestones(50000) == [25000, 50000]
  {
    MilestonesCount(24999);
    MilestonesCount(50000);
    MilestonesExact(50000);
    MilestonesIncreasing(50000);
    var m := Milestones(50000);
    assert m[0] in m && m[1] in m;
    forall c | 1 <= c <= 50000 && c % Cadence == 0
      ensures c == 25000 || c == 50000
    {
      var q := c / Cadence;
      assert c == q * Cadence;
      assert 1 <= q <= 2;
    }
  }
}
