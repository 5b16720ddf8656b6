/**
 * File-mode bookkeeping of the JACK client (programa/jack.c): the PCM16
 * reader `readFile`, the window advance done by the audio callback
 * `process_`, and one iteration of the polling loop in `main` that refills
 * the half of the ring buffer the callback is not playing.
 *
 * `struct dataType` is the class `Data`; the polling loop's locals are the
 * class `Poller`. The audio callback and the polling loop run on different
 * threads in the program; here each is a method, and a run is a
 * sequential interleaving of `Data.Callback` and `Poller.PollStep`
 * (`CallbackThenPoll` shows that their contracts compose).
 */
module Jack {
  import opened Pcm
  import Tarea04

  /** Capacity of the ring buffer in samples: `1<<16`. */
  const RawBufferSize: nat := 0x1_0000

  /**
   * The sample rate `process_` hands to `process`: the global `Fs`, which
   * nothing assigns (`main` stores the server's rate in a local of the same
   * name), so it keeps its static initial value 0.
   */
  const Fs: nat := 0

  // ---------------------------------------------------------------------
  // Arithmetic on window indices

  lemma MulLeq(a: int, b: int, c: int)
    requires a <= b && 0 <= c
    ensures a * c <= b * c
  {
  }

  /** `k` whole windows of `n` samples fit in `size` exactly when `k <= size / n`. */
  lemma WindowsFit(k: int, n: int, size: int)
    requires 0 < n && 0 <= size
    ensures k * n <= size <==> k <= size / n
  {
    var q := size / n;
    assert size == q * n + size % n;
    if k <= q {
      MulLeq(k, q, n);
    } else {
      MulLeq(q + 1, k, n);
    }
  }

  // ---------------------------------------------------------------------
  // readFile

  /**
   * The ring buffer `buf` after `readFile(buf + offset, samples)` received
   * the bytes `raw`: nothing changes when no byte arrived; otherwise the
   * missing bytes count as zero and the `samples` slots from `offset` on
   * hold the decoded samples divided by 32768.
   */
  function Refilled(buf: seq<real>, offset: nat, samples: nat, raw: seq<byte>): (r: seq<real>)
    requires |raw| <= 2 * samples && offset + samples <= |buf|
    ensures |r| == |buf|
  {
    if |raw| == 0 then buf
    else
      var pcm := Decode(ZeroPad(raw, 2 * samples));
      seq(|buf|, j requires 0 <= j < |buf| =>
        if offset <= j < offset + samples then Normalized(pcm[j - offset]) else buf[j])
  }

  /**
   * Slot `offset + i` after a read that delivered at least one byte: the
   * sample of bytes `2i` and `2i+1`, where bytes past the end of the read are
   * zero; hence a sample made only of missing bytes is 0 and a sample whose
   * high byte is missing is its low byte. Every written slot lies in [-1, 1).
   */
  lemma RefilledSlot(buf: seq<real>, offset: nat, samples: nat, raw: seq<byte>, i: nat)
    requires |raw| <= 2 * samples && offset + samples <= |buf|
    requires 0 < |raw| && i < samples
    ensures var r := Refilled(buf, offset, samples, raw);
      && -1.0 <= r[offset + i] < 1.0
      && (2 * i + 1 < |raw| ==> r[offset + i] == Normalized(Int16(raw[2 * i], raw[2 * i + 1])))
      && (2 * i + 1 == |raw| ==> r[offset + i] == raw[2 * i] as real / 32768.0)
      && (|raw| <= 2 * i ==> r[offset + i] == 0.0)
  {
    RefilledAt(buf, offset, samples, raw, i);
  }

  lemma RefilledAt(buf: seq<real>, offset: nat, samples: nat, raw: seq<byte>, i: nat)
    requires |raw| <= 2 * samples && offset + samples <= |buf|
    requires 0 < |raw| && i < samples
    ensures var p := ZeroPad(raw, 2 * samples);
      Refilled(buf, offset, samples, raw)[offset + i] == Normalized(Int16(p[2 * i], p[2 * i + 1]))
  {
    var p := ZeroPad(raw, 2 * samples);
    assert Decode(p)[i] == Int16(p[2 * i], p[2 * i + 1]);
  }

  /** Slots outside the window read into, and every slot after an empty read, keep their value. */
  lemma RefilledFrame(buf: seq<real>, offset: nat, samples: nat, raw: seq<byte>, j: nat)
    requires |raw| <= 2 * samples && offset + samples <= |buf|
    requires j < |buf| && (|raw| == 0 || j < offset || offset + samples <= j)
    ensures Refilled(buf, offset, samples, raw)[j] == buf[j]
  {
  }

  /**
   * `readFile(buffer + offset, samples)` given the `rc == |raw|` bytes that
   * `read(0, raw, 2*samples)` delivered: returns 0, writing nothing, when no
   * byte arrived, and otherwise zero-pads, decodes `samples` slots and
   * returns 1 (a short read is reported only by the next call).
   */
  method ReadFile(buffer: array<real>, offset: nat, samples: nat, raw: seq<byte>) returns (r: int)
    requires |raw| <= 2 * samples
    requires offset + samples <= buffer.Length
    modifies buffer
    ensures r == if |raw| == 0 then 0 else 1
    ensures buffer[..] == Refilled(old(buffer[..]), offset, samples, raw)
  {
    if |raw| == 0 {
      return 0;
    }
    var bytes := ZeroPad(raw, 2 * samples);
    ghost var orig := buffer[..];
    ghost var target := Refilled(orig, offset, samples, raw);
    var i := 0;
    while i < samples
      invariant 0 <= i <= samples
      invariant forall j :: 0 <= j < buffer.Length ==>
        buffer[j] == if offset <= j < offset + i then target[j] else orig[j]
    {
      RefilledAt(orig, offset, samples, raw, i);
      buffer[offset + i] := Normalized(Int16(bytes[2 * i], bytes[2 * i + 1]));
      i := i + 1;
    }
    assert forall j :: 0 <= j < buffer.Length ==> buffer[..][j] == target[j];
    return 1;
  }

  // ---------------------------------------------------------------------
  // The window advance of process_

  /** Window `wnd` of `n` samples of `buf`: the samples a callback plays. */
  function Window(buf: seq<real>, wnd: int, n: int): (w: seq<real>)
    requires 0 <= wnd && 0 < n && (wnd + 1) * n <= |buf|
    ensures |w| == n
    ensures forall i :: 0 <= i < n ==> w[i] == buf[wnd * n + i]
  {
    MulLeq(0, wnd, n);
    buf[wnd * n..(wnd + 1) * n]
  }

  /**
   * The window index after the callback consumed window `wnd` of `wndSize`
   * samples: `wnd + 1`, or 0 when window `wnd + 1` would not fit, that is
   * when `(wnd + 2) * wndSize > size`. With a
   * constant window size the index runs through 0, 1, ..., W-1 where
   * W = size / wndSize windows fit in the buffer.
   */
  function NextWnd(wnd: int, wndSize: int, size: int): (next: int)
    requires 0 < wndSize <= size && 0 <= wnd && (wnd + 1) * wndSize <= size
    ensures next == (wnd + 1) % (size / wndSize)
    ensures 0 <= next && (next + 1) * wndSize <= size
  {
    NextWndWraps(wnd, wndSize, size);
    var next := wnd + 1;
    if (next + 1) * wndSize > size then 0 else next
  }

  lemma NextWndWraps(wnd: int, wndSize: int, size: int)
    requires 0 < wndSize <= size && 0 <= wnd && (wnd + 1) * wndSize <= size
    ensures (wnd + 2) * wndSize > size ==> (wnd + 1) % (size / wndSize) == 0
    ensures (wnd + 2) * wndSize <= size ==> (wnd + 1) % (size / wndSize) == wnd + 1
    ensures 1 * wndSize <= size
  {
    var w := size / wndSize;
    WindowsFit(wnd + 1, wndSize, size);
    WindowsFit(wnd + 2, wndSize, size);
    if (wnd + 2) * wndSize > size {
      assert wnd + 1 == w;
      DivModUnique(wnd + 1, w, 1, 0);
    } else {
      assert wnd + 1 < w;
      DivModUnique(wnd + 1, w, 0, wnd + 1);
    }
  }

  /** The index after `k` callbacks of `wndSize` frames each, starting from 0. */
  function WndAfter(k: nat, wndSize: int, size: int): (wnd: int)
    requires 0 < wndSize <= size
    ensures 0 <= wnd && (wnd + 1) * wndSize <= size
  {
    if k == 0 then 0 else NextWnd(WndAfter(k - 1, wndSize, size), wndSize, size)
  }

  /** After `k` callbacks the index is `k` modulo the number of windows: the index cycles. */
  lemma {:induction false} WndCycles(k: nat, wndSize: int, size: int)
    requires 0 < wndSize <= size
    ensures WndAfter(k, wndSize, size) == k % (size / wndSize)
  {
    var w := size / wndSize;
    WindowsFit(1, wndSize, size);
    if k == 0 {
      DivModUnique(0, w, 0, 0);
    } else {
      var prev := WndAfter(k - 1, wndSize, size);
      WndCycles(k - 1, wndSize, size);
      ModSucc(k - 1, w);
      assert (prev + 1) % w == k % w;
      assert WndAfter(k, wndSize, size) == (prev + 1) % w;
    }
  }

  /** Division with remainder has one result: `x == q * w + r` with `0 <= r < w` fixes both. */
  lemma DivModUnique(x: int, w: int, q: int, r: int)
    requires 0 < w && 0 <= r < w && x == q * w + r
    ensures x / w == q && x % w == r
  {
    var q', r' := x / w, x % w;
    assert x == q' * w + r';
    if q' < q {
      MulLeq(q' + 1, q, w);
    } else if q < q' {
      MulLeq(q + 1, q', w);
    }
  }

  lemma ModSucc(k: nat, w: int)
    requires 0 < w
    ensures (k % w + 1) % w == (k + 1) % w
  {
    var q, r := k / w, k % w;
    assert k == q * w + r;
    if r + 1 == w {
      DivModUnique(k + 1, w, q + 1, 0);
      DivModUnique(r + 1, w, 1, 0);
    } else {
      DivModUnique(k + 1, w, q, r + 1);
      DivModUnique(r + 1, w, 0, r + 1);
    }
  }

  /** `struct dataType`: the ring buffer and the window state it shares. */
  class Data {
    /** Index of the window the next callback reads. */
    var wnd: int
    /** Frames per callback, recorded by the callback; 0 until the first one. */
    var wndSize: int
    const rawBufferSize: int
    const rawBuffer: array<real>

    ghost predicate Valid()
      reads this
    {
      && rawBuffer.Length == rawBufferSize
      && 0 <= wnd && 0 <= wndSize
      && (wndSize == 0 ==> wnd == 0)
      && (wnd + 1) * wndSize <= rawBufferSize
    }

    /** The set-up in `main`: index 0, no window size yet, a zeroed buffer of 1<<16 samples. */
    constructor ()
      ensures Valid() && fresh(rawBuffer)
      ensures wnd == 0 && wndSize == 0 && rawBufferSize == RawBufferSize
      ensures forall j :: 0 <= j < rawBuffer.Length ==> rawBuffer[j] == 0.0
    {
      wnd := 0;
      wndSize := 0;
      rawBufferSize := RawBufferSize;
      rawBuffer := new real[RawBufferSize](_ => 0.0);
    }

    /**
     * The file-mode branch of `process_` up to the choice of `in`: records
     * the frame count, advances the index and returns the offset of the
     * window to play, which is the one the index named before the advance.
     * The frame count may not change between callbacks once recorded.
     */
    method ProcessStep(nframes: int) returns (offset: int)
      requires Valid()
      requires 0 < nframes <= rawBufferSize
      requires wndSize == 0 || wndSize == nframes
      modifies this`wnd, this`wndSize
      ensures Valid()
      ensures wndSize == nframes
      ensures wnd == NextWnd(old(wnd), nframes, rawBufferSize)
      ensures wnd == 0 <==> (old(wnd) + 2) * nframes > rawBufferSize
      ensures offset == nframes * old(wnd)
      ensures 0 <= offset && offset + nframes <= rawBufferSize
    {
      assert (wnd + 1) * nframes <= rawBufferSize by {
        if wndSize == 0 { assert wnd == 0; }
      }
      wndSize := nframes;
      var currentBuffer := wnd;
      var next := currentBuffer + 1;
      if (next + 1) * wndSize > rawBufferSize {
        next := 0;
      }
      wnd := next;
      offset := wndSize * currentBuffer;
      assert offset + nframes == (currentBuffer + 1) * nframes;
      assert wnd == NextWnd(currentBuffer, nframes, rawBufferSize);
    }

    /**
     * `process_` in file mode: advance the window, then let `process` copy
     * the window that was current into the output port's buffer.
     */
    method Callback(nframes: int, output: array<real>) returns (r: int)
      requires Valid()
      requires 0 < nframes <= rawBufferSize
      requires wndSize == 0 || wndSize == nframes
      requires output != rawBuffer && nframes <= output.Length
      modifies this`wnd, this`wndSize, output
      ensures Valid() && wndSize == nframes
      ensures wnd == NextWnd(old(wnd), nframes, rawBufferSize)
      ensures output[..nframes] == Window(rawBuffer[..], old(wnd), nframes)
      ensures output[nframes..] == old(output[nframes..])
      ensures r == 0
    {
      var offset := ProcessStep(nframes);
      r := Tarea04.Process(Fs, nframes, rawBuffer, offset, output);
    }
  }

  // ---------------------------------------------------------------------
  // The refill decision of the polling loop

  /**
   * `halfBuffer`: the largest whole number of windows such that two halves
   * of it fit in the buffer; less than two windows of the buffer are left
   * over.
   */
  function HalfBuffer(size: int, wndSize: int): (half: int)
    requires 0 < wndSize && 0 <= size
    ensures 0 <= half && half % wndSize == 0
    ensures 2 * half <= size < 2 * half + 2 * wndSize
  {
    HalfBufferBounds(size, wndSize);
    (size / wndSize / 2) * wndSize
  }

  lemma HalfBufferBounds(size: int, wndSize: int)
    requires 0 < wndSize && 0 <= size
    ensures var half := (size / wndSize / 2) * wndSize;
      0 <= half && half % wndSize == 0 && 2 * half <= size < 2 * half + 2 * wndSize
  {
    var w := size / wndSize;
    var h := w / 2;
    var half := h * wndSize;
    WindowsFit(w, wndSize, size);
    WindowsFit(w + 1, wndSize, size);
    MulLeq(0, h, wndSize);
    MulLeq(2 * h, w, wndSize);
    assert 2 * half == (2 * h) * wndSize;
    MulLeq(w + 1, 2 * h + 2, wndSize);
    assert (2 * h + 2) * wndSize == 2 * half + 2 * wndSize;
    DivModUnique(half, wndSize, h, 0);
  }

  /**
   * The two halves span all `W = size / wndSize` windows exactly when `W` is
   * even; for an odd `W` the last window lies past the second half.
   */
  lemma {:induction false} HalvesCoverWindows(size: int, wndSize: int)
    requires 0 < wndSize && 0 <= size
    ensures 2 * HalfBuffer(size, wndSize) == (size / wndSize) * wndSize <==> (size / wndSize) % 2 == 0
  {
    var w := size / wndSize;
    var h := w / 2;
    assert HalfBuffer(size, wndSize) == h * wndSize;
    if w % 2 == 0 {
      assert w == 2 * h;
    } else {
      assert w == 2 * h + 1;
      assert w * wndSize == 2 * (h * wndSize) + wndSize;
    }
  }

  /** What one iteration of the polling loop does. */
  datatype Action =
    | Wait                          // the index has not moved since the last iteration
    | Track                         // it moved to a window that triggers nothing
    | Read(start: int, count: int)  // readFile(rawBuffer + start, count)
    | Finish                        // ok = 0: the input ended, stop at this half boundary

  /**
   * The choice made by the loop body when it last saw index `wnd` and now
   * observes `shared`: on the first change, fill everything after the next
   * window up to the end of the second half; afterwards, at index 0 refill
   * the second half and at the midpoint the first half, unless the previous
   * read delivered no byte, in which case the loop ends.
   */
  function Decide(wnd: int, shared: int, wndSize: int, size: int, firstTime: bool, abortRQ: int): (a: Action)
    requires shared != wnd ==> 0 < wndSize
    requires 0 <= shared && 0 <= size && (shared + 1) * wndSize <= size
    requires firstTime && shared != wnd ==> (shared + 1) * wndSize <= 2 * HalfBuffer(size, wndSize)
    ensures a.Wait? <==> shared == wnd
    ensures a.Read? ==> 0 <= a.start && 0 <= a.count && a.start + a.count <= size
    ensures a.Read? ==> a.start + a.count <= 2 * HalfBuffer(size, wndSize)
    ensures a.Finish? ==> !firstTime && abortRQ == 0 && (shared == 0 || shared == size / wndSize / 2)
    ensures a.Read? && !firstTime ==> abortRQ != 0
  {
    if shared == wnd then Wait
    else
      var halfBuffer := HalfBuffer(size, wndSize);
      if firstTime then Read((shared + 1) * wndSize, 2 * halfBuffer - (shared + 1) * wndSize)
      else if shared == 0 then (if abortRQ == 0 then Finish else Read(halfBuffer, halfBuffer))
      else if shared == size / wndSize / 2 then (if abortRQ == 0 then Finish else Read(0, halfBuffer))
      else Track
  }

  /**
   * The regions read into: the first fill ends where the second half ends
   * and starts right after the window the callback plays next; the refill
   * at index 0 is the second half and the one at the midpoint the first
   * half; once the first fill is done the loop ends exactly at a half
   * boundary after a read that delivered nothing.
   */
  lemma DecideRegions(wnd: int, shared: int, wndSize: int, size: int, firstTime: bool, abortRQ: int)
    requires shared != wnd ==> 0 < wndSize
    requires 0 <= shared && 0 <= size && (shared + 1) * wndSize <= size
    requires firstTime && shared != wnd ==> (shared + 1) * wndSize <= 2 * HalfBuffer(size, wndSize)
    ensures var a := Decide(wnd, shared, wndSize, size, firstTime, abortRQ);
      && (shared != wnd && firstTime ==>
            a.Read? && a.start == (shared + 1) * wndSize && a.start + a.count == 2 * HalfBuffer(size, wndSize))
      && (shared != wnd && !firstTime && shared == 0 && abortRQ != 0 ==>
            a == Read(HalfBuffer(size, wndSize), HalfBuffer(size, wndSize)))
      && (shared != wnd && !firstTime && shared != 0 && shared == size / wndSize / 2 && abortRQ != 0 ==>
            a == Read(0, HalfBuffer(size, wndSize)))
      && (a.Finish? <==> shared != wnd && !firstTime && abortRQ == 0 && (shared == 0 || shared == size / wndSize / 2))
  {
  }

  /**
   * A half refill never touches the half the callback plays next: after the
   * index wrapped to 0 the callback plays windows 0 .. W/2-1, all inside the
   * first half, while the second half is refilled; from the midpoint on it
   * plays windows W/2 .. W-1, all past the first half, while the first half
   * is refilled. The first fill starts after the window played next.
   */
  lemma {:induction false} RefillSparesPlayingHalf(wnd: int, shared: int, wndSize: int, size: int,
                                                   firstTime: bool, abortRQ: int, k: int)
    requires shared != wnd ==> 0 < wndSize
    requires 0 <= shared && 0 <= size && (shared + 1) * wndSize <= size
    requires firstTime && shared != wnd ==> (shared + 1) * wndSize <= 2 * HalfBuffer(size, wndSize)
    requires Decide(wnd, shared, wndSize, size, firstTime, abortRQ).Read?
    requires 0 <= k < size / wndSize
    requires if firstTime then k == shared
             else if shared == 0 then k < size / wndSize / 2
             else size / wndSize / 2 <= k
    ensures var a := Decide(wnd, shared, wndSize, size, firstTime, abortRQ);
      (k + 1) * wndSize <= a.start || a.start + a.count <= k * wndSize
  {
    var w := size / wndSize;
    var half := HalfBuffer(size, wndSize);
    assert half == (w / 2) * wndSize;
    if !firstTime {
      if shared == 0 {
        MulLeq(k + 1, w / 2, wndSize);
      } else {
        MulLeq(w / 2, k, wndSize);
      }
    }
  }

  /** The polling loop of `main` in file mode, one iteration at a time. */
  class Poller {
    /** The index seen in the previous iteration. */
    var wnd: int
    /** No read has been done yet. */
    var firstTime: bool
    /** Result of the last `readFile` (negated logic: 0 means the input ended). */
    var abortRQ: int
    /** The loop goes on. */
    var ok: bool

    constructor ()
      ensures wnd == 0 && firstTime && abortRQ == 1 && ok
    {
      wnd := 0;
      firstTime := true;
      abortRQ := 1;
      ok := true;
    }

    /**
     * The index last seen is one the callback could have produced with the
     * current window size; in particular it is 0 until a window size has
     * been recorded, so a change is never observed before that.
     */
    ghost predicate Coherent(data: Data)
      reads this, data
    {
      && data.Valid()
      && 0 <= wnd
      && (data.wndSize == 0 ==> wnd == 0)
      && (wnd + 1) * data.wndSize <= data.rawBufferSize
    }

    /**
     * One pass of `while (ok != 0)` in file mode. `raw` is what the
     * `readFile` done in this pass (if any) receives from standard input.
     * The first fill must not have a negative length.
     */
    method PollStep(data: Data, raw: seq<byte>)
      requires ok && Coherent(data)
      requires firstTime && data.wnd != wnd ==>
        (data.wnd + 1) * data.wndSize <= 2 * HalfBuffer(data.rawBufferSize, data.wndSize)
      requires var a := Decide(wnd, data.wnd, data.wndSize, data.rawBufferSize, firstTime, abortRQ);
        a.Read? ==> |raw| <= 2 * a.count
      modifies this, data.rawBuffer
      ensures Coherent(data)
      ensures var a := Decide(old(wnd), data.wnd, data.wndSize, data.rawBufferSize, old(firstTime), old(abortRQ));
        && wnd == data.wnd
        && firstTime == (old(firstTime) && a.Wait?)
        && ok == !a.Finish?
        && abortRQ == (if a.Read? then (if |raw| == 0 then 0 else 1) else old(abortRQ))
        && data.rawBuffer[..] ==
             if a.Read? then Refilled(old(data.rawBuffer[..]), a.start, a.count, raw)
             else old(data.rawBuffer[..])
    {
      if wnd != data.wnd {
        wnd := data.wnd;
        var wndSize := data.wndSize;
        var halfBuffer := HalfBuffer(data.rawBufferSize, wndSize);
        if firstTime {
          firstTime := false;
          abortRQ := ReadFile(data.rawBuffer, (wnd + 1) * wndSize, 2 * halfBuffer - (wnd + 1) * wndSize, raw);
        } else if wnd == 0 {
          if abortRQ == 0 {
            ok := false;
          } else {
            abortRQ := ReadFile(data.rawBuffer, halfBuffer, halfBuffer, raw);
          }
        } else if wnd == data.rawBufferSize / wndSize / 2 {
          if abortRQ == 0 {
            ok := false;
          } else {
            abortRQ := ReadFile(data.rawBuffer, 0, halfBuffer, raw);
          }
        }
      }
    }
  }

  /**
   * One audio callback followed by one pass of the polling loop, the
   * interleaving in which the loop reacts to every advance of the index.
   * The pass observes the index the callback just published, and the pair
   * of objects stays `Coherent`, so the next callback and pass may follow.
   * The ghost result `a` is the choice the pass made on that index.
   */
  method CallbackThenPoll(data: Data, poller: Poller, nframes: int, output: array<real>, raw: seq<byte>)
    returns (r: int, ghost a: Action)
    requires poller.ok && poller.Coherent(data)
    requires 0 < nframes <= data.rawBufferSize && (data.wndSize == 0 || data.wndSize == nframes)
    requires output != data.rawBuffer && nframes <= output.Length
    requires var next := NextWnd(data.wnd, nframes, data.rawBufferSize);
      && (poller.firstTime && next != poller.wnd ==>
            (next + 1) * nframes <= 2 * HalfBuffer(data.rawBufferSize, nframes))
      && (var a := Decide(poller.wnd, next, nframes, data.rawBufferSize, poller.firstTime, poller.abortRQ);
            a.Read? ==> |raw| <= 2 * a.count)
    modifies data`wnd, data`wndSize, output, poller, data.rawBuffer
    ensures poller.Coherent(data) && data.wndSize == nframes
    ensures output[..nframes] == Window(old(data.rawBuffer[..]), old(data.wnd), nframes)
    ensures output[nframes..] == old(output[nframes..])
    ensures data.wnd == NextWnd(old(data.wnd), nframes, data.rawBufferSize) && poller.wnd == data.wnd
    ensures a == Decide(old(poller.wnd), data.wnd, nframes, data.rawBufferSize, old(poller.firstTime), old(poller.abortRQ))
    ensures poller.ok == !a.Finish?
    ensures poller.firstTime == (old(poller.firstTime) && a.Wait?)
    ensures poller.abortRQ == (if a.Read? then (if |raw| == 0 then 0 else 1) else old(poller.abortRQ))
    ensures data.rawBuffer[..] ==
      if a.Read? then Refilled(old(data.rawBuffer[..]), a.start, a.count, raw) else old(data.rawBuffer[..])
    ensures r == 0
  {
    ghost var played := Window(data.rawBuffer[..], data.wnd, nframes);
    r := data.Callback(nframes, output);
    assert output[..nframes] == played;
    ghost var out := output[..];
    a := Decide(poller.wnd, data.wnd, nframes, data.rawBufferSize, poller.firstTime, poller.abortRQ);
    poller.PollStep(data, raw);
    assert output[..] == out;
  }
}
