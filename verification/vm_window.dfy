/** The address window of a VM pool and the legitimacy test of
    mp4/vm_pool.C, which the page table's fault handler consults. The test
    reads only the window, never the pool's regions, so the page table's
    registry of VM pools is modelled as the sequence of their windows. */
module VMWindow {

  /** The window [base, base + size) a VM pool manages. */
  datatype Window = Window(base: nat, size: nat)

  /** is_legitimate with the upper bound made exclusive: an address belongs
      to the pool exactly when it lies inside the window. */
  predicate IsLegitimate(w: Window, a: nat) {
    w.base <= a < w.base + w.size
  }

  /** is_legitimate as written: it rejects only addresses below the base or
      above base + size, so base + size itself is accepted. */
  predicate IsLegitimateAsWritten(w: Window, a: nat) {
    !(a < w.base || a > w.base + w.size)
  }

  /** The two tests differ at exactly one address: the first byte past the
      window, which the source accepts. */
  lemma LegitimacyBoundary(w: Window, a: nat)
    ensures IsLegitimateAsWritten(w, a) <==> IsLegitimate(w, a) || a == w.base + w.size
    ensures IsLegitimateAsWritten(w, w.base + w.size) && !IsLegitimate(w, w.base + w.size)
  {
  }

  /** The walk over the registered pools: does any of them claim a? */
  predicate AnyLegitimate(ws: seq<Window>, a: nat)
    ensures AnyLegitimate(ws, a) <==> exists i :: 0 <= i < |ws| && IsLegitimate(ws[i], a)
  {
    if |ws| == 0 then false
    else IsLegitimate(ws[0], a) || AnyLegitimate(ws[1..], a)
  }
}
