/** A byte stream as a list of frames. */
module Streams {
  import opened Bytes
  import opened Protocol

  function Concat(fs: seq<seq<byte>>): seq<byte>
  {
    if fs == [] then [] else fs[0] + Concat(fs[1..])
  }

  /** The frames that successive receptions take from the stream `s`; a refused one is not listed. */
  function Frames(be: Backend, mt: MsgType, s: seq<byte>): seq<seq<byte>>
    decreases |s|
  {
    match Frame(be, mt, s)
    case Incomplete => []
    case TooMany(n) => Frames(be, mt, s[n..])
    case Framed(n) => [s[..n]] + Frames(be, mt, s[n..])
  }

  /** A frame at the head of a stream is found whatever follows it. */
  lemma FrameAtHead(be: Backend, mt: MsgType, f: seq<byte>, rest: seq<byte>)
    requires Frame(be, mt, f) == Framed(|f|)
    ensures Frame(be, mt, f + rest) == Framed(|f|)
  {
    FrameIgnoresRest(be, mt, f, rest);
    assert f[..|f|] == f;
  }

  lemma FramesStep(be: Backend, mt: MsgType, f: seq<byte>, tail: seq<byte>)
    requires Frame(be, mt, f) == Framed(|f|)
    ensures Frames(be, mt, f + tail) == [f] + Frames(be, mt, tail)
  {
    FrameAtHead(be, mt, f, tail);
    assert (f + tail)[..|f|] == f && (f + tail)[|f|..] == tail;
  }

  lemma Regroup<T>(x: T, ys: seq<T>, zs: seq<T>)
    ensures [x] + (ys + zs) == ([x] + ys) + zs
  {
  }

  lemma ConcatStep(fs: seq<seq<byte>>, rest: seq<byte>)
    requires fs != []
    ensures Concat(fs) + rest == fs[0] + (Concat(fs[1..]) + rest)
    ensures fs == [fs[0]] + fs[1..]
  {
  }

  /** No byte of the next frame is consumed: a concatenation of frames decodes to the same frames. */
  lemma {:induction false} FramesOfConcat(be: Backend, mt: MsgType, fs: seq<seq<byte>>, rest: seq<byte>)
    requires forall f :: f in fs ==> Frame(be, mt, f) == Framed(|f|)
    ensures Frames(be, mt, Concat(fs) + rest) == fs + Frames(be, mt, rest)
    decreases |fs|
  {
    if fs == [] {
      assert Concat(fs) + rest == rest;
    } else {
      ConcatStep(fs, rest);
      FramesStep(be, mt, fs[0], Concat(fs[1..]) + rest);
      FramesOfConcat(be, mt, fs[1..], rest);
      Regroup(fs[0], fs[1..], Frames(be, mt, rest));
    }
  }
}
