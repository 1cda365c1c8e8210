/** The acknowledgement check that client and server share: a window of 32 indices on a counter
    modulo 1024, with a bit mask meant for the indices behind the highest one. */
module SequenceWindow {

  const MODULO: int := 1024
  const HISTORY: int := 32

  /** The highest index accepted so far and the history mask. */
  datatype Window = Window(remote: int, bits: int)

  function Pow2(k: int): int {
    if k <= 0 then 1 else 2 * Pow2(k - 1)
  }

  /** A left shift in an unsigned word of the given width. */
  function ShiftLeft(bits: int, k: int, width: int): int {
    var m := Pow2(width);
    if m == 0 then 0 else (bits * Pow2(k)) % m
  }

  predicate BitIsSet(bits: int, k: int) {
    var m := Pow2(k);
    m != 0 && (bits / m) % 2 == 1
  }

  /** `checkAcknowledgement` (32-bit mask) and `checkAcknowlegment` (64-bit mask), branch by
      branch. The last branch repeats the guard of the second. */
  function Check(w: Window, ack: int, width: int): (bool, Window) {
    if ack == w.remote then (false, w)
    else if ack > w.remote && ack - w.remote < HISTORY then
      (true, Window(ack, ShiftLeft(w.bits, ack - w.remote, width)))
    else if MODULO + ack > w.remote && MODULO + ack - w.remote < HISTORY then
      (true, Window(ack, ShiftLeft(w.bits, MODULO + ack - w.remote, width)))
    else if ack > w.remote && ack - w.remote < HISTORY && !BitIsSet(w.bits, ack - w.remote - 1) then
      (true, Window(w.remote, w.bits + Pow2(ack - w.remote - 1)))
    else (false, w)
  }

  predicate Index(i: int) {
    0 <= i < MODULO
  }

  /** The counter behind a sender's indices: wraps to 0 after 1023. */
  function Next(i: int): int {
    if i < MODULO - 1 then i + 1 else 0
  }

  lemma ZeroModulo(x: int, m: int)
    requires m != 0
    ensures (0 * x) % m == 0
  {
    assert 0 * x == 0;
  }

  lemma ShiftOfZero(k: int, width: int)
    ensures ShiftLeft(0, k, width) == 0
  {
    hide Pow2;
    if Pow2(width) != 0 { ZeroModulo(Pow2(k), Pow2(width)); }
  }

  /** An index is accepted exactly when it is 1 to 31 ahead of the highest one modulo 1024; then it
      becomes the highest, otherwise nothing changes. The mask never leaves 0, so an index behind
      the highest one is never accepted. */
  lemma AcceptedExactly(w: Window, ack: int, width: int)
    requires Index(w.remote) && Index(ack) && w.bits == 0
    ensures var r := Check(w, ack, width);
      (r.0 <==> 1 <= (ack - w.remote) % 1024 <= 31)
      && r.1 == (if r.0 then Window(ack, 0) else w)
  {
    ShiftOfZero(ack - w.remote, width);
    ShiftOfZero(MODULO + ack - w.remote, width);
  }

  /** Whatever the index, a mask of 0 stays 0. */
  lemma ZeroStaysZero(w: Window, ack: int, width: int)
    requires w.bits == 0
    ensures Check(w, ack, width).1.bits == 0
  {
    ShiftOfZero(ack - w.remote, width);
    ShiftOfZero(MODULO + ack - w.remote, width);
  }

  /** For integers in general: 1 to 31 ahead, or 1 to 31 ahead after adding 1024. A negative index
      can be accepted and then is the highest one. */
  lemma AcceptedInGeneral(w: Window, ack: int, width: int)
    ensures var r := Check(w, ack, width);
      (r.0 <==> 1 <= ack - w.remote <= 31 || (ack != w.remote && 1 <= 1024 + ack - w.remote <= 31))
      && r.1.remote == (if r.0 then ack else w.remote)
      && (!r.0 ==> r.1.bits == w.bits)
      && (r.0 && Pow2(width) != 0 ==>
            r.1.bits == (w.bits * Pow2(if ack > w.remote then ack - w.remote else 1024 + ack - w.remote)) % Pow2(width))
  {
    hide Pow2;
  }

  /** The powers of two behind the shifts. */
  lemma {:induction false} Pow2Adds(a: nat, b: nat)
    ensures Pow2(0) == 1 && Pow2(1) == 2 && Pow2(a + b) == Pow2(a) * Pow2(b)
    decreases a
  {
    if a > 0 {
      Pow2Adds(a - 1, b);
      assert Pow2(a + b) == 2 * Pow2(a - 1 + b);
    }
  }

  // ---------------------------------------------------------------- unbounded indices

  /** Whether the index `n` of an unbounded counter is new for a receiver at `highest`. */
  predicate Fresh(highest: int, n: int) {
    1 <= n - highest < HISTORY
  }

  /** The wrapped index is not mistaken for another one: it is new, or does not look new. */
  predicate Unambiguous(highest: int, n: int) {
    Fresh(highest, n) || !(1 <= (n - highest) % MODULO < HISTORY)
  }

  lemma FreshIsUnambiguous(highest: int, n: int)
    ensures Fresh(highest, n) ==> Unambiguous(highest, n)
  {
  }

  /** A range of distances at which nothing is mistaken. */
  predicate InReach(highest: int, n: int) {
    -(MODULO - HISTORY) <= n - highest <= MODULO
  }

  lemma ModuloOfDifference(n: int, g: int)
    ensures (n % MODULO - g % MODULO) % MODULO == (n - g) % MODULO
  {
    var q := n / MODULO - g / MODULO;
    assert n - g == n % MODULO - g % MODULO + MODULO * q;
    ModuloOfShift(n % MODULO - g % MODULO, q);
  }

  lemma ModuloOfShift(x: int, q: int)
    ensures (x + MODULO * q) % MODULO == x % MODULO
  {
    assert x + MODULO * q == MODULO * (x / MODULO + q) + x % MODULO;
  }

  /** The wrapped check answers as an unbounded one would exactly for unambiguous indices; then it also
      leaves the unbounded state modulo 1024. */
  lemma CheckIsFresh(highest: int, n: int, width: int)
    ensures var r := Check(Window(highest % MODULO, 0), n % MODULO, width);
      && (r.0 == Fresh(highest, n) <==> Unambiguous(highest, n))
      && (Unambiguous(highest, n) ==> r.1 == Window((if r.0 then n else highest) % MODULO, 0))
  {
    AcceptedExactly(Window(highest % MODULO, 0), n % MODULO, width);
    ModuloOfDifference(n, highest);
  }

  /** From 992 behind to 1024 ahead every index is unambiguous, and no wider range will do: the next index
      on either side is accepted although it is not new. */
  lemma ReachIsUnambiguous(highest: int, n: int)
    ensures InReach(highest, n) <==> -992 <= n - highest <= 1024
    ensures InReach(highest, n) ==> Unambiguous(highest, n)
    ensures !Unambiguous(highest, highest - 993) && !Unambiguous(highest, highest + 1025)
  {
    var d := n - highest;
    if d < 0 {
      ModuloOfShift(d, 1);
    } else if d == MODULO {
      ModuloOfShift(0, 1);
    }
  }
}
