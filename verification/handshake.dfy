/** `wait_for`: read up to 16 bytes from the link, succeeding on the first one equal
    to the expected control byte. */
module Handshake {
  import opened Protocol

  /** `int attempts = 16` in `wait_for`. */
  const ATTEMPTS: nat := 16

  /** How a wait ends: the expected byte was the `used`-th byte read; all attempts
      were spent without it (`ERR_FAILURE`); or the link had no more bytes to give. */
  datatype Wait = Matched(used: nat) | TimedOut | Starved

  /** The expected byte is among the first `n` replies. */
  predicate SeenWithin(expected: byte, link: seq<Reply>, n: nat)
  {
    exists i :: 0 <= i < Min(n, |link|) && link[i] == Byte(expected)
  }

  /** The loop of `wait_for` with `attempts` tries left. A failed `read_char` leaves
      the buffer holding the previous, non-matching byte, so it never matches. */
  function Poll(expected: byte, link: seq<Reply>, attempts: nat): (w: Wait)
    decreases attempts
    ensures w.Matched? <==> SeenWithin(expected, link, attempts)
    ensures w.Matched? ==>
              && 0 < w.used <= Min(attempts, |link|)
              && link[w.used - 1] == Byte(expected)
              && forall i :: 0 <= i < w.used - 1 ==> link[i] != Byte(expected)
    ensures w.TimedOut? <==> attempts <= |link| && !SeenWithin(expected, link, attempts)
  {
    if attempts == 0 then TimedOut
    else if |link| == 0 then Starved
    else if link[0] == Byte(expected) then Matched(1)
    else
      var w := Poll(expected, link[1..], attempts - 1);
      assert SeenWithin(expected, link, attempts) <==> SeenWithin(expected, link[1..], attempts - 1) by {
        if SeenWithin(expected, link[1..], attempts - 1) {
          var i :| 0 <= i < Min(attempts - 1, |link| - 1) && link[1..][i] == Byte(expected);
          assert link[i + 1] == Byte(expected);
        }
        if SeenWithin(expected, link, attempts) {
          var i :| 0 <= i < Min(attempts, |link|) && link[i] == Byte(expected);
          assert i != 0;
          assert link[1..][i - 1] == Byte(expected);
        }
      }
      match w
      case Matched(u) => Matched(u + 1)
      case _ => w
  }

  /** `wait_for(dev, expected)`: succeeds iff the expected byte is among the first
      16 bytes read, and then has consumed exactly the bytes up to and including its
      first occurrence. */
  function WaitFor(expected: byte, link: seq<Reply>): (w: Wait)
    ensures w.Matched? <==> SeenWithin(expected, link, ATTEMPTS)
    ensures w.Matched? ==>
              && 0 < w.used <= ATTEMPTS && w.used <= |link|
              && link[w.used - 1] == Byte(expected)
              && forall i :: 0 <= i < w.used - 1 ==> link[i] != Byte(expected)
    ensures w.TimedOut? <==> ATTEMPTS <= |link| && !SeenWithin(expected, link, ATTEMPTS)
    ensures w.Starved? <==> |link| < ATTEMPTS && !SeenWithin(expected, link, ATTEMPTS)
  {
    Poll(expected, link, ATTEMPTS)
  }

  /** How many replies a wait has read from the link. */
  function Used(w: Wait, link: seq<Reply>): (n: nat)
    ensures n <= |link|
  {
    match w
    case Matched(u) => Min(u, |link|)
    case TimedOut => Min(ATTEMPTS, |link|)
    case Starved => |link|
  }
}
