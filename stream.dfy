/**
 A process stream of a heat-exchanger network: inlet temperature, outlet
 temperature, the product of flow rate and heat capacity, and the duty the
 stream carries, computed once when the stream is made.
 */
module Streams {

  function Abs(x: real): (r: real)
    ensures 0.0 <= r
    ensures r == x || r == -x
  {
    if x < 0.0 then -x else x
  }

  /** A stream record as stored: inlet, outlet, heat-capacity flow rate, duty. */
  datatype Stream = Stream(tin: real, tout: real, fcp: real, heat: real)

  /** A stream whose duty is the one derived from its other fields. */
  type BuiltStream = s: Stream | s.heat == Abs((s.tout - s.tin) * s.fcp)
    witness Stream(0.0, 0.0, 0.0, 0.0)

  /**
   Builds a stream the way the source's constructor does: the temperatures and
   the heat-capacity flow rate are kept as given, and the duty is the absolute
   value of the temperature change times the heat-capacity flow rate. Nothing
   is rejected: equal temperatures or a zero or negative rate are accepted.
   */
  function NewStream(tin: real, tout: real, fcp: real): (s: BuiltStream)
    ensures s.tin == tin && s.tout == tout && s.fcp == fcp
    ensures 0.0 <= s.heat
    ensures s.heat == Abs(tout - tin) * Abs(fcp)
  {
    AbsOfProduct(tout - tin, fcp);
    Stream(tin, tout, fcp, Abs((tout - tin) * fcp))
  }

  /** The absolute value of a product is the product of the absolute values. */
  lemma AbsOfProduct(x: real, y: real)
    ensures Abs(x * y) == Abs(x) * Abs(y)
  {
  }

  /** For a non-negative heat-capacity flow rate the duty is |Tout - Tin| * FCp. */
  lemma HeatWithNonNegativeRate(tin: real, tout: real, fcp: real)
    requires 0.0 <= fcp
    ensures NewStream(tin, tout, fcp).heat == Abs(tout - tin) * fcp
  {
  }

  /**
   Swapping inlet and outlet leaves the duty unchanged: a hot stream and a
   cold stream over the same temperature range and rate carry the same duty.
   */
  lemma HeatSwapSymmetric(tin: real, tout: real, fcp: real)
    ensures NewStream(tin, tout, fcp).heat == NewStream(tout, tin, fcp).heat
  {
  }

  /** The duty vanishes exactly when the temperatures agree or the rate is zero. */
  lemma HeatZeroIff(tin: real, tout: real, fcp: real)
    ensures NewStream(tin, tout, fcp).heat == 0.0 <==> tin == tout || fcp == 0.0
  {
  }
}
