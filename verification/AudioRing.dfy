/** The producer side of the audio bridge (runner/recomp_audio_drc.h): a ring of frames filled one
    by one, with an overflow rule, and a block copy that must be indistinguishable from it. Samples
    are interleaved: a frame is `channels` consecutive samples. Sample values and the read cursor are
    reals. */
module AudioRing {
  import opened Bits

  type Frame = seq<real>

  /** A sample scaled to the unit range. */
  function Unit(x: int): real { x as real * (1.0 / 32768.0) }

  /** Full scale of a 16-bit sample is one. */
  lemma {:induction false} UnitRange(x: int)
    ensures Unit(x) * 32768.0 == x as real && (-32768 <= x < 32768 ==> -1.0 <= Unit(x) < 1.0)
  {
    assert x as real * (1.0 / 32768.0) * 32768.0 == x as real;
  }

  function Scaled(s: seq<int>): (r: seq<real>)
    ensures |r| == |s|
  {
    seq(|s|, i requires 0 <= i < |s| => Unit(s[i]))
  }

  // ---- interleaved frames ------------------------------------------------------------

  lemma Times(a: int, b: int, ch: int)
    ensures (a + b) * ch == a * ch + b * ch
  {
  }

  lemma Ordered(a: int, b: int, ch: nat)
    requires a <= b
    ensures a * ch <= b * ch && (a >= 0 ==> a * ch >= 0)
  {
  }

  /** Frame j lies inside a buffer of n frames. */
  lemma {:induction false} Inside(j: nat, n: nat, ch: nat)
    requires j < n
    ensures 0 <= j * ch && j * ch + ch <= n * ch
  {
    Ordered(j, n, ch);
    Times(j, 1, ch);
    Ordered(j + 1, n, ch);
  }

  function FrameAt(s: seq<real>, ch: nat, n: nat, j: nat): (f: Frame)
    requires |s| == n * ch && j < n
    ensures |f| == ch
  {
    Inside(j, n, ch);
    s[j * ch..j * ch + ch]
  }

  function Frames(s: seq<real>, ch: nat, n: nat): (fs: seq<Frame>)
    requires |s| == n * ch
    ensures |fs| == n
  {
    seq(n, j requires 0 <= j < n => FrameAt(s, ch, n, j))
  }

  /** memcpy of b to position `at`. */
  function Pasted(s: seq<real>, at: nat, b: seq<real>): (r: seq<real>)
    requires at + |b| <= |s|
    ensures |r| == |s|
  {
    s[..at] + b + s[at + |b|..]
  }

  lemma PastedBefore(s: seq<real>, at: nat, b: seq<real>, i: nat, k: nat)
    requires i <= k <= at && at + |b| <= |s|
    ensures Pasted(s, at, b)[i..k] == s[i..k]
  {
  }

  lemma PastedAfter(s: seq<real>, at: nat, b: seq<real>, i: nat, k: nat)
    requires at + |b| <= i <= k <= |s|
    ensures Pasted(s, at, b)[i..k] == s[i..k]
  {
  }

  lemma PastedWithin(s: seq<real>, at: nat, b: seq<real>, i: nat, k: nat)
    requires i <= k <= |b| && at + |b| <= |s|
    ensures Pasted(s, at, b)[at + i..at + k] == b[i..k]
  {
  }

  /** Pasting m frames at frame w replaces exactly those frames. */
  lemma {:induction false} PastedFrame(s: seq<real>, ch: nat, n: nat, w: nat, b: seq<real>, m: nat, j: nat)
    requires |s| == n * ch && |b| == m * ch && w + m <= n && j < n
    ensures w * ch >= 0 && w * ch + |b| <= |s|
    ensures FrameAt(Pasted(s, w * ch, b), ch, n, j)
            == if w <= j < w + m then FrameAt(b, ch, m, j - w) else FrameAt(s, ch, n, j)
  {
    Times(w, m, ch);
    Ordered(w + m, n, ch);
    Ordered(0, w, ch);
    Inside(j, n, ch);
    if j < w {
      Inside(j, w, ch);
      PastedBefore(s, w * ch, b, j * ch, j * ch + ch);
    } else if j < w + m {
      Times(w, j - w, ch);
      Inside(j - w, m, ch);
      PastedWithin(s, w * ch, b, (j - w) * ch, (j - w) * ch + ch);
    } else {
      Ordered(w + m, j, ch);
      PastedAfter(s, w * ch, b, j * ch, j * ch + ch);
    }
  }

  /** The frames of a piece of a buffer. */
  lemma {:induction false} PieceFrame(s: seq<real>, ch: nat, n: nat, from: nat, m: nat, j: nat)
    requires |s| == n * ch && from + m <= n && j < m
    ensures 0 <= from * ch && from * ch + m * ch <= |s|
    ensures FrameAt(s[from * ch..from * ch + m * ch], ch, m, j) == FrameAt(s, ch, n, from + j)
  {
    Times(from, m, ch);
    Ordered(from + m, n, ch);
    Ordered(0, from, ch);
    Ordered(0, m, ch);
    Times(from, j, ch);
    Inside(j, m, ch);
    Inside(from + j, n, ch);
    SliceOfSlice(s, from * ch, from * ch + m * ch, j * ch, j * ch + ch);
  }

  lemma {:induction false} SliceOfSlice(s: seq<real>, a: nat, b: nat, i: nat, k: nat)
    requires a <= b <= |s| && i <= k <= b - a
    ensures s[a..b][i..k] == s[a + i..a + k]
  {
    var p, q := s[a..b][i..k], s[a + i..a + k];
    assert |p| == |q|;
    forall m | 0 <= m < |p| ensures p[m] == q[m] {
      assert p[m] == s[a..b][i + m];
    }
  }

  /** The fields of rab_bridge a push touches. */
  datatype State = State(ring: seq<Frame>, inCount: nat, outPos: real, drops: nat)

  function Fill(s: State): real { s.inCount as real - s.outPos }

  /** One frame: the overflow check, the slot, the count. */
  function PushOne(s: State, f: Frame): (r: State)
    requires |s.ring| > 0
    ensures |r.ring| == |s.ring|
  {
    var over := Fill(s) >= (|s.ring| - 1) as real;
    State(s.ring[s.inCount % |s.ring| := f], s.inCount + 1,
          if over then s.outPos + 1.0 else s.outPos,
          if over then s.drops + 1 else s.drops)
  }

  function PushAll(s: State, fs: seq<Frame>): (r: State)
    requires |s.ring| > 0
    ensures |r.ring| == |s.ring|
  {
    if fs == [] then s else PushOne(PushAll(s, fs[..|fs| - 1]), fs[|fs| - 1])
  }

  // ---- what the ring holds -----------------------------------------------------------

  /** The ring holds the newest frames of the stream pushed so far, as many as it has slots. */
  ghost predicate Holds(s: State, stream: seq<Frame>)
  {
    && |s.ring| > 0
    && s.inCount == |stream|
    && forall i :: 0 <= i < |stream| && |stream| - |s.ring| <= i ==> s.ring[i % |s.ring|] == stream[i]
  }

  lemma {:induction false} PushOneHolds(s: State, stream: seq<Frame>, f: Frame)
    requires Holds(s, stream)
    ensures Holds(PushOne(s, f), stream + [f])
  {
    var n, t := |s.ring|, stream + [f];
    forall i | 0 <= i < |t| && |t| - n <= i ensures PushOne(s, f).ring[i % n] == t[i] {
      if i < |stream| {
        SlotsApart(i, |stream|, n);
        assert t[i] == stream[i];
      }
    }
  }

  /** A push keeps the fill below the capacity. */
  lemma PushOneFill(s: State, f: Frame)
    requires |s.ring| > 0 && Fill(s) < |s.ring| as real
    ensures Fill(PushOne(s, f)) < |s.ring| as real
  {
  }

  /** After any pushes the ring still holds the newest frames, and no frame at or past the read
      cursor has been overwritten. */
  lemma {:induction false} UnreadFramesSurvive(s: State, stream: seq<Frame>, fs: seq<Frame>)
    requires Holds(s, stream) && Fill(s) < |s.ring| as real
    ensures var r := PushAll(s, fs);
            && Holds(r, stream + fs) && Fill(r) < |s.ring| as real
            && (forall i :: 0 <= i < |stream + fs| && i as real >= r.outPos
                  ==> r.ring[i % |r.ring|] == (stream + fs)[i])
  {
    if fs == [] {
      assert stream + fs == stream;
    } else {
      var n := |fs| - 1;
      UnreadFramesSurvive(s, stream, fs[..n]);
      PushOneFill(PushAll(s, fs[..n]), fs[n]);
      PushOneHolds(PushAll(s, fs[..n]), stream + fs[..n], fs[n]);
      assert stream + fs[..n] + [fs[n]] == stream + fs;
    }
  }

  /** The cursor moves exactly by the dropped frames, and the counts only grow. */
  lemma {:induction false} DropsAccounted(s: State, fs: seq<Frame>)
    requires |s.ring| > 0
    ensures var r := PushAll(s, fs);
            && r.inCount == s.inCount + |fs| && s.drops <= r.drops <= s.drops + |fs|
            && r.outPos == s.outPos + (r.drops - s.drops) as real
  {
    if fs != [] { DropsAccounted(s, fs[..|fs| - 1]); }
  }

  // ---- the block form ----------------------------------------------------------------

  /** How far slot j lies after slot w, going round. */
  function Ahead(w: nat, j: nat, n: nat): (k: nat)
    requires w < n && j < n
    ensures k < n
  {
    if j >= w then j - w else j - w + n
  }

  /** The ring with a block of frames laid down from slot w, going round. */
  function Laid(ring: seq<Frame>, w: nat, fs: seq<Frame>): (r: seq<Frame>)
    requires w < |ring| && |fs| <= |ring|
    ensures |r| == |ring|
  {
    seq(|ring|, j requires 0 <= j < |ring| =>
      if Ahead(w, j, |ring|) < |fs| then fs[Ahead(w, j, |ring|)] else ring[j])
  }

  /** The test of rab_try_push_prepared. */
  predicate Fits(s: State, frames: nat)
  {
    var exact := 9007199254740992;
    && 0 < frames && 1 < |s.ring| && frames <= |s.ring| && |s.ring| <= exact
    && s.inCount <= exact - frames
    && (s.inCount + frames - 1) as real - s.outPos < (|s.ring| - 1) as real
  }

  lemma LaidStep(ring: seq<Frame>, w: nat, fs: seq<Frame>, f: Frame, at: nat)
    requires w < |ring| && |fs| < |ring|
    requires at == if w + |fs| < |ring| then w + |fs| else w + |fs| - |ring|
    ensures Laid(ring, w, fs + [f]) == Laid(ring, w, fs)[at := f]
  {
  }

  /** When the last frame's check passes every check does, and pushing frame by frame lays the block
      down and moves nothing but the count. */
  lemma {:induction false} PushAllLays(s: State, fs: seq<Frame>)
    requires 0 < |s.ring| && |fs| <= |s.ring|
    requires fs != [] ==> (s.inCount + |fs| - 1) as real - s.outPos < (|s.ring| - 1) as real
    ensures PushAll(s, fs) == State(Laid(s.ring, s.inCount % |s.ring|, fs), s.inCount + |fs|, s.outPos, s.drops)
  {
    var w := s.inCount % |s.ring|;
    if fs == [] {
      assert Laid(s.ring, w, fs) == s.ring;
    } else {
      var n := |fs| - 1;
      PushAllLays(s, fs[..n]);
      assert fs[..n] + [fs[n]] == fs;
      PushLays(s, fs[..n], fs[n]);
    }
  }

  lemma {:induction false} PushLays(s: State, fs: seq<Frame>, f: Frame)
    requires |fs| < |s.ring| && (s.inCount + |fs|) as real - s.outPos < (|s.ring| - 1) as real
    ensures var w := s.inCount % |s.ring|;
            PushOne(State(Laid(s.ring, w, fs), s.inCount + |fs|, s.outPos, s.drops), f)
            == State(Laid(s.ring, w, fs + [f]), s.inCount + |fs| + 1, s.outPos, s.drops)
  {
    SlotOf(s.inCount, |fs|, |s.ring|);
    LaidStep(s.ring, s.inCount % |s.ring|, fs, f, (s.inCount + |fs|) % |s.ring|);
  }

  /** The last frame's check is exact: a block that fails it would drop a frame one by one. */
  lemma {:induction false} LastCheckIsExact(s: State, fs: seq<Frame>)
    requires 0 < |s.ring| && fs != []
    ensures PushAll(s, fs).drops == s.drops
            <==> (s.inCount + |fs| - 1) as real - s.outPos < (|s.ring| - 1) as real
  {
    var n := |fs| - 1;
    DropsAccounted(s, fs[..n]);
    if n > 0 { LastCheckIsExact(s, fs[..n]); }
  }

  /** The test of the block form is exact: it takes every block of at most a ring, with counts a double
      holds exactly, from which frame by frame nothing would be dropped. */
  lemma {:induction false} FitsExactly(s: State, fs: seq<Frame>)
    requires |s.ring| > 0
    ensures Fits(s, |fs|)
            <==> 0 < |fs| <= |s.ring| && 1 < |s.ring| <= 9007199254740992 && s.inCount + |fs| <= 9007199254740992
                 && PushAll(s, fs).drops == s.drops
  {
    if fs != [] { LastCheckIsExact(s, fs); }
  }

  /** The sizes of the two pieces. */
  lemma {:induction false} PiecesFit(ch: nat, cap: nat, w: nat, n: nat, first: nat)
    requires w < cap && n <= cap && first == if cap - w > n then n else cap - w
    ensures 0 <= first * ch && first * ch + (n - first) * ch == n * ch && (n - first) * ch >= 0
    ensures 0 <= w * ch && w * ch + first * ch <= cap * ch && (n - first) * ch <= cap * ch
  {
    Times(first, n - first, ch);
    Times(w, first, ch);
    Ordered(0, first, ch);
    Ordered(0, w, ch);
    Ordered(0, n - first, ch);
    Ordered(w + first, cap, ch);
    Ordered(n - first, cap, ch);
  }

  /** The two block copies of rab_try_push_prepared, the first at slot w and the second at the start,
      lay the block's frames down round the ring. */
  lemma {:induction false} TwoPiecesLay(ring: seq<real>, ch: nat, cap: nat, w: nat, b: seq<real>, n: nat, first: nat,
                                        at: nat, cut: nat)
    requires |ring| == cap * ch && |b| == n * ch && w < cap && n <= cap
    requires first == if cap - w > n then n else cap - w
    requires at == w * ch && cut == first * ch
    ensures cut <= |b| && at + cut <= |ring| && |b| - cut <= |ring|
    ensures Frames(Pasted(Pasted(ring, at, b[..cut]), 0, b[cut..]), ch, cap)
            == Laid(Frames(ring, ch, cap), w, Frames(b, ch, n))
  {
    PiecesFit(ch, cap, w, n, first);
    var t := Pasted(Pasted(ring, at, b[..cut]), 0, b[cut..]);
    var laid := Laid(Frames(ring, ch, cap), w, Frames(b, ch, n));
    forall j | 0 <= j < cap ensures FrameAt(t, ch, cap, j) == laid[j] {
      PieceLaid(ring, ch, cap, w, b, n, first, b[..cut], b[cut..], j);
    }
  }

  lemma {:induction false} PieceLaid(ring: seq<real>, ch: nat, cap: nat, w: nat, b: seq<real>, n: nat, first: nat,
                                     p: seq<real>, q: seq<real>, j: nat)
    requires |ring| == cap * ch && |b| == n * ch && w < cap && n <= cap && j < cap
    requires first == if cap - w > n then n else cap - w
    requires |p| == first * ch && |q| == (n - first) * ch && b == p + q
    ensures w * ch >= 0 && w * ch + |p| <= |ring| && |q| <= |ring|
    ensures FrameAt(Pasted(Pasted(ring, w * ch, p), 0, q), ch, cap, j)
            == if Ahead(w, j, cap) < n then FrameAt(b, ch, n, Ahead(w, j, cap)) else FrameAt(ring, ch, cap, j)
  {
    PiecesFit(ch, cap, w, n, first);
    PastedFrame(ring, ch, cap, w, p, first, j);
    PastedFrame(Pasted(ring, w * ch, p), ch, cap, 0, q, n - first, j);
    if w <= j < w + first {
      FrontFrame(b, ch, n, p, q, first, j - w);
    } else if j < n - first {
      BackFrame(b, ch, n, p, q, first, j);
    }
  }

  /** Frames of the two halves of a block. */
  lemma {:induction false} FrontFrame(b: seq<real>, ch: nat, n: nat, p: seq<real>, q: seq<real>, m: nat, j: nat)
    requires |b| == n * ch && b == p + q && |p| == m * ch && m <= n && j < m
    ensures FrameAt(p, ch, m, j) == FrameAt(b, ch, n, j)
  {
    PieceFrame(b, ch, n, 0, m, j);
    assert b[0 * ch..0 * ch + m * ch] == p;
  }

  lemma {:induction false} BackFrame(b: seq<real>, ch: nat, n: nat, p: seq<real>, q: seq<real>, m: nat, j: nat)
    requires |b| == n * ch && b == p + q && |p| == m * ch && m <= n && |q| == (n - m) * ch && j < n - m
    ensures FrameAt(q, ch, n - m, j) == FrameAt(b, ch, n, m + j)
  {
    PieceFrame(b, ch, n, m, n - m, j);
    assert b[m * ch..m * ch + (n - m) * ch] == q;
  }

  /** One frame written in place. */
  lemma {:induction false} FrameLaid(ring: seq<real>, ch: nat, cap: nat, w: nat, f: Frame)
    requires |ring| == cap * ch && w < cap && |f| == ch
    ensures w * ch >= 0 && w * ch + ch <= |ring|
    ensures Frames(Pasted(ring, w * ch, f), ch, cap) == Frames(ring, ch, cap)[w := f]
  {
    Inside(w, cap, ch);
    Times(1, 0, ch);
    forall j | 0 <= j < cap
      ensures FrameAt(Pasted(ring, w * ch, f), ch, cap, j) == Frames(ring, ch, cap)[w := f][j]
    {
      PastedFrame(ring, ch, cap, w, f, 1, j);
    }
  }

  // ---- the bridge --------------------------------------------------------------------

  class Bridge {
    const channels: nat
    const cap: nat                  // ring capacity in frames
    const ring: array<real>
    var inCount: nat
    var outPos: real
    var drops: nat
    var pushed: nat

    constructor (channels: nat, cap: nat, half: nat)
      requires half > 0
      ensures Valid() && this.channels == channels && this.cap == cap && fresh(ring)
      ensures inCount == 0 && outPos == (half - 1) as real && drops == 0 && pushed == 0
      ensures forall i :: 0 <= i < ring.Length ==> ring[i] == 0.0
    {
      Ordered(0, cap, channels);
      this.channels, this.cap := channels, cap;
      ring := new real[cap * channels](_ => 0.0);
      inCount, outPos, drops, pushed := 0, (half - 1) as real, 0, 0;
    }

    ghost predicate Valid() { ring.Length == cap * channels }

    ghost function View(): State
      reads this, ring
      requires Valid()
    {
      State(Frames(ring[..], channels, cap), inCount, outPos, drops)
    }

    /** rab_push. */
    method Push(input: seq<int>, frames: nat)
      requires Valid() && cap > 0 && |input| == frames * channels
      modifies this, ring
      ensures View() == PushAll(old(View()), Frames(Scaled(input), channels, frames))
      ensures pushed == old(pushed) + frames
    {
      ghost var fs := Frames(Scaled(input), channels, frames);
      for f := 0 to frames
        invariant View() == PushAll(old(View()), fs[..f]) && pushed == old(pushed)
      {
        assert fs[..f + 1][..f] == fs[..f];
        PushFrame(input, frames, f);
      }
      assert fs[..frames] == fs;
      pushed := pushed + frames;
    }

    method PushFrame(input: seq<int>, frames: nat, f: nat)
      requires Valid() && cap > 0 && |input| == frames * channels && f < frames
      modifies this`inCount, this`outPos, this`drops, ring
      ensures View() == PushOne(old(View()), FrameAt(Scaled(input), channels, frames, f))
    {
      var fill := inCount as real - outPos;
      if fill >= (cap - 1) as real {
        outPos := outPos + 1.0;
        drops := drops + 1;
      }
      WriteSlot(input, frames, f, inCount % cap);
      inCount := inCount + 1;
    }

    /** The inner loop: sample by sample into the slot. */
    method WriteSlot(input: seq<int>, frames: nat, f: nat, w: nat)
      requires Valid() && w < cap && |input| == frames * channels && f < frames
      modifies ring
      ensures Frames(ring[..], channels, cap)
              == old(Frames(ring[..], channels, cap))[w := FrameAt(Scaled(input), channels, frames, f)]
    {
      Inside(w, cap, channels);
      Inside(f, frames, channels);
      ghost var slot := FrameAt(Scaled(input), channels, frames, f);
      var to, from := w * channels, f * channels;
      for c := 0 to channels
        invariant ring[..] == Pasted(old(ring[..]), to, slot[..c])
      {
        ring[to + c] := input[from + c] as real * (1.0 / 32768.0);
      }
      assert slot[..channels] == slot;
      FrameLaid(old(ring[..]), channels, cap, w, slot);
    }

    /** rab_try_push_prepared: refuses without a change, exactly when the test fails; otherwise it is
        the frame-by-frame push. */
    method TryPushPrepared(input: seq<real>, frames: nat) returns (done: bool)
      requires Valid() && |input| == frames * channels
      modifies this`inCount, this`pushed, ring
      ensures done == old(Fits(View(), frames))
      ensures !done ==> View() == old(View()) && pushed == old(pushed)
      ensures done ==> View() == PushAll(old(View()), Frames(input, channels, frames)) && pushed == old(pushed) + frames
    {
      var exact := 9007199254740992;
      if frames <= 0 || cap <= 1 || frames > cap || cap > exact
        || inCount > exact - frames
        || !((inCount + frames - 1) as real - outPos < (cap - 1) as real)
      {
        return false;
      }
      PushAllLays(View(), Frames(input, channels, frames));
      CopyBlock(input, frames);
      inCount := inCount + frames;
      pushed := pushed + frames;
      return true;
    }

    /** memcpy into the ring. */
    method Paste(at: nat, b: seq<real>)
      requires at + |b| <= ring.Length
      modifies ring
      ensures ring[..] == Pasted(old(ring[..]), at, b)
    {
      forall i | 0 <= i < |b| { ring[at + i] := b[i]; }
    }

    /** The two block copies. */
    method CopyBlock(input: seq<real>, frames: nat)
      requires Valid() && 0 < frames <= cap && |input| == frames * channels
      modifies ring
      ensures Frames(ring[..], channels, cap)
              == Laid(old(Frames(ring[..], channels, cap)), inCount % cap, Frames(input, channels, frames))
    {
      var w := inCount % cap;
      var first := cap - w;
      if first > frames { first := frames; }
      PiecesFit(channels, cap, w, frames, first);
      var at, cut := w * channels, first * channels;
      TwoPiecesLay(ring[..], channels, cap, w, input, frames, first, at, cut);
      Paste(at, input[..cut]);
      if first < frames {
        Paste(0, input[cut..]);
      } else {
        NothingPasted(ring[..], input[cut..]);
      }
    }

    /** The publishing branch of audio.c: whichever way it goes, the result is the frame-by-frame
        push of the 16-bit samples. */
    method Publish(input: seq<int>, frames: nat)
      requires Valid() && cap > 0 && |input| == frames * channels
      modifies this, ring
      ensures View() == PushAll(old(View()), Frames(Scaled(input), channels, frames))
      ensures pushed == old(pushed) + frames
    {
      var prepared := [];
      for i := 0 to |input|
        invariant prepared == Scaled(input)[..i]
      {
        prepared := prepared + [input[i] as real * (1.0 / 32768.0)];
      }
      assert prepared == Scaled(input);
      var done := TryPushPrepared(prepared, frames);
      if !done { Push(input, frames); }
    }
  }

  lemma NothingPasted(s: seq<real>, b: seq<real>)
    requires b == []
    ensures Pasted(s, 0, b) == s
  {
  }
}
