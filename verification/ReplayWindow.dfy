/** The DTLS anti-replay window (RFC 6347 section 4.1.2.6): a 64-bit map of the numbers just below the
    largest sequence number seen. A machine word is represented by its 64 bits, least significant first. */
module ReplayWindow {
  import opened Bytes

  const WINDOW_SIZE: nat := 64

  function Zeros(n: nat): (z: seq<bool>)
    ensures |z| == n && forall i :: 0 <= i < n ==> !z[i]
  {
    seq(n, i => false)
  }

  type Word = bits: seq<bool> | |bits| == 64 witness Zeros(64)

  const ZERO: Word := Zeros(64)

  /** w << s: zeros come in from below, the s highest bits are lost. */
  function ShiftLeft(w: Word, s: nat): (r: Word)
    requires s < 64
  {
    Zeros(s) + w[..64 - s]
  }

  /** w | (1 << i) */
  function WithBit(w: Word, i: nat): (r: Word)
    requires i < 64
  {
    w[i := true]
  }

  // The window as a value.

  datatype Window = Window(bits: Word, max: nat)

  const EMPTY := Window(ZERO, 0)

  /** s has fallen off the low end of the window below max. */
  predicate Stale(s: nat, max: nat) {
    s + WINDOW_SIZE <= max
  }

  predicate ShouldDiscard(w: Window, s: nat) {
    s <= w.max && (w.max - s >= WINDOW_SIZE || w.bits[w.max - s])
  }

  function Record(w: Window, s: nat): (r: Window) {
    var slid :=
      if s <= w.max then w
      else if s - w.max >= WINDOW_SIZE then Window(ZERO, s)
      else Window(ShiftLeft(w.bits, s - w.max), s);
    if slid.max - s < WINDOW_SIZE then slid.(bits := WithBit(slid.bits, slid.max - s)) else slid
  }

  /** One record arriving: a number the window does not discard is recorded. */
  function Offer(w: Window, s: nat): (r: Window) {
    if ShouldDiscard(w, s) then w else Record(w, s)
  }

  // What the window means: the set of numbers recorded so far.

  /** w remembers exactly those members of the set that are inside it, and nothing is above it. */
  ghost predicate Represents(w: Window, recorded: set<nat>) {
    && (forall s :: s in recorded ==> s <= w.max)
    && (forall i :: 0 <= i < 64 ==> (w.bits[i] <==> w.max - i in recorded))
  }

  lemma DiscardMeaning(w: Window, recorded: set<nat>, s: nat)
    requires Represents(w, recorded)
    ensures ShouldDiscard(w, s) <==> s in recorded || Stale(s, w.max)
  {
    if s <= w.max && w.max - s < 64 {
      assert w.bits[w.max - s] <==> w.max - (w.max - s) in recorded;
    }
  }

  lemma RecordMeaning(w: Window, recorded: set<nat>, s: nat)
    requires Represents(w, recorded)
    ensures Represents(Record(w, s), recorded + {s})
  {
  }

  lemma OfferMeaning(w: Window, recorded: set<nat>, s: nat)
    requires Represents(w, recorded)
    ensures Represents(Offer(w, s), recorded + (if ShouldDiscard(w, s) then {} else {s}))
  {
    if ShouldDiscard(w, s) {
      assert recorded + {} == recorded;
    } else {
      RecordMeaning(w, recorded, s);
    }
  }

  // Whole runs.

  function Run(arrivals: seq<nat>): (w: Window) {
    if |arrivals| == 0 then EMPTY
    else Offer(Run(arrivals[..|arrivals| - 1]), arrivals[|arrivals| - 1])
  }

  /** Whether the k-th arrival of a run gets past the window. */
  predicate Accepted(arrivals: seq<nat>, k: nat)
    requires k < |arrivals|
  {
    !ShouldDiscard(Run(arrivals[..k]), arrivals[k])
  }

  ghost function AcceptedSet(arrivals: seq<nat>): set<nat> {
    set k | 0 <= k < |arrivals| && Accepted(arrivals, k) :: arrivals[k]
  }

  lemma AcceptedSetStep(arrivals: seq<nat>)
    requires |arrivals| > 0
    ensures var n := |arrivals| - 1;
            AcceptedSet(arrivals) == AcceptedSet(arrivals[..n]) + (if Accepted(arrivals, n) then {arrivals[n]} else {})
  {
    var n := |arrivals| - 1;
    forall k | 0 <= k < n
      ensures Accepted(arrivals, k) == Accepted(arrivals[..n], k)
    {
      assert arrivals[..n][..k] == arrivals[..k];
    }
    forall s | s in AcceptedSet(arrivals[..n])
      ensures s in AcceptedSet(arrivals)
    {
      var k :| 0 <= k < n && Accepted(arrivals[..n], k) && arrivals[..n][k] == s;
      assert Accepted(arrivals, k) && arrivals[k] == s;
    }
  }

  lemma {:induction false} RunRepresents(arrivals: seq<nat>)
    ensures Represents(Run(arrivals), AcceptedSet(arrivals))
  {
    if |arrivals| == 0 {
      assert AcceptedSet(arrivals) == {};
    } else {
      var n := |arrivals| - 1;
      RunRepresents(arrivals[..n]);
      AcceptedSetStep(arrivals);
      OfferMeaning(Run(arrivals[..n]), AcceptedSet(arrivals[..n]), arrivals[n]);
    }
  }

  /** Over any run, the k-th arrival is refused exactly when its number was accepted before or lies at least a
      window's width below the largest accepted: no number passes twice, none still in the window is lost. */
  lemma ReplayProtection(arrivals: seq<nat>, k: nat)
    requires k < |arrivals|
    ensures Accepted(arrivals, k) <==>
            !(exists j :: 0 <= j < k && Accepted(arrivals, j) && arrivals[j] == arrivals[k])
            && !Stale(arrivals[k], Run(arrivals[..k]).max)
  {
    var before := arrivals[..k];
    RunRepresents(before);
    DiscardMeaning(Run(before), AcceptedSet(before), arrivals[k]);
    forall j | 0 <= j < k
      ensures Accepted(before, j) == Accepted(arrivals, j)
    {
      assert before[..j] == arrivals[..j];
    }
    if arrivals[k] in AcceptedSet(before) {
      var j :| 0 <= j < |before| && Accepted(before, j) && before[j] == arrivals[k];
      assert Accepted(arrivals, j) && arrivals[j] == arrivals[k];
    }
    if j :| 0 <= j < k && Accepted(arrivals, j) && arrivals[j] == arrivals[k] {
      assert Accepted(before, j) && before[j] == arrivals[k];
    }
  }

  /** The window as the source keeps it: two words updated in place. */
  class Bitmap {
    var map_: Word
    var maxSeqNum: nat

    function View(): Window
      reads this
    {
      Window(map_, maxSeqNum)
    }

    constructor ()
      ensures View() == EMPTY
    {
      map_ := ZERO;
      maxSeqNum := 0;
    }

    method Zero()
      modifies this
      ensures View() == EMPTY
    {
      map_ := ZERO;
      maxSeqNum := 0;
    }

    method CheckDiscard(seqNum: nat) returns (discard: bool)
      ensures discard == ShouldDiscard(View(), seqNum)
    {
      if seqNum > maxSeqNum {
        return false;
      }
      var idx := maxSeqNum - seqNum;
      discard := idx >= WINDOW_SIZE || map_[idx];
    }

    method RecordNumber(seqNum: nat)
      modifies this
      ensures View() == Record(old(View()), seqNum)
    {
      if seqNum > maxSeqNum {
        var shift := seqNum - maxSeqNum;
        if shift >= WINDOW_SIZE {
          map_ := ZERO;
        } else {
          map_ := ShiftLeft(map_, shift);
        }
        maxSeqNum := seqNum;
      }
      var idx := maxSeqNum - seqNum;
      if idx < WINDOW_SIZE {
        map_ := WithBit(map_, idx);
      }
    }
  }
}
