/**
 * The student's extension point (programa/tarea04.c): an initialiser that is
 * handed the sample rate and a per-cycle transform that, as shipped, copies
 * its input buffer to its output buffer. Float samples are modelled as reals;
 * a C pointer is modelled as an array together with an offset into it.
 */
module Tarea04 {

  /** `init`: receives the sample rate and does nothing (no state, empty frame). */
  method Init(fs: nat)
  {
  }

  /**
   * `process`: `memcpy(out, in, nframes floats)` where `in` points at
   * `input[inOffset]`; always returns 0. The source must not overlap the
   * destination (a `memcpy` precondition), and `in` is read-only.
   */
  method Process(fs: nat, nframes: int, input: array<real>, inOffset: nat, output: array<real>)
    returns (r: int)
    requires 0 <= nframes
    requires inOffset + nframes <= input.Length && nframes <= output.Length
    requires input != output
    modifies output
    ensures r == 0
    ensures output[..nframes] == input[inOffset..inOffset + nframes]
    ensures output[nframes..] == old(output[nframes..])
    ensures input[..] == old(input[..])
  {
    forall i | 0 <= i < nframes {
      output[i] := input[inOffset + i];
    }
    return 0;
  }
}
