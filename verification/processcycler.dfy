/** The `ProcessCycler` of components/custom/design-process.tsx: a step
    index that starts at 0 and, on every interval tick, moves to the next of
    four fixed labels, wrapping around. The 2000 ms interval itself is
    scheduling and is not modelled; a tick is one interval firing. */
module ProcessCycler {

  const Steps: seq<string> := ["RESEARCH", "DESIGN", "FINALIZE", "APPLICATION"]

  const InitialIndex: nat := 0

  /** One tick: `i` goes to `(i + 1) % 4`. */
  function Tick(i: nat): (r: nat)
    ensures r < |Steps|
    ensures i + 1 < |Steps| ==> r == i + 1
    ensures i + 1 == |Steps| ==> r == 0
  {
    (i + 1) % |Steps|
  }

  /** The index after `n` ticks from the start. */
  function IndexAfter(n: nat): (i: nat)
    ensures i < |Steps|
  {
    if n == 0 then InitialIndex else Tick(IndexAfter(n - 1))
  }

  /** The label shown for index `i`. */
  function Label(i: nat): string
    requires i < |Steps|
  {
    Steps[i]
  }

  /** After `n` ticks the index is `n mod 4`. */
  lemma {:induction false} IndexAfterIsMod(n: nat)
    ensures IndexAfter(n) == n % |Steps|
  {
    if n > 0 {
      IndexAfterIsMod(n - 1);
    }
  }

  /** Every four ticks the same label is shown again, and the label shown is
      always one of the four steps. */
  lemma LabelsRepeatEveryFourTicks(n: nat)
    ensures Label(IndexAfter(n + 4)) == Label(IndexAfter(n))
    ensures Label(IndexAfter(n)) in Steps
  {
    IndexAfterIsMod(n + 4);
    IndexAfterIsMod(n);
  }

  /** The labels go RESEARCH, DESIGN, FINALIZE, APPLICATION and back. */
  lemma LabelOrder()
    ensures Label(IndexAfter(0)) == "RESEARCH"
    ensures Label(Tick(0)) == "DESIGN"
    ensures Label(Tick(1)) == "FINALIZE"
    ensures Label(Tick(2)) == "APPLICATION"
    ensures Label(Tick(3)) == "RESEARCH"
  {
  }
}
