/**
  Byte strings as the server sees them: the newline-terminated frames a
  connection delivers, the bytes still waiting for their newline, and the
  C-string view that `fputs` takes of a NUL-terminated buffer.
*/
module Framing {

  /** One octet, as received from `recv` or stored in the data file. */
  newtype byte = x: int | 0 <= x < 256

  /** The frame terminator `'\n'`. */
  const NEWLINE: byte := 10

  /** The C string terminator `'\0'`. */
  const NUL: byte := 0

  /** Concatenation of byte strings, in order. */
  function Flatten(pieces: seq<seq<byte>>): seq<byte>
  {
    if pieces == [] then [] else Flatten(pieces[..|pieces| - 1]) + pieces[|pieces| - 1]
  }

  lemma {:induction false} FlattenAppend(a: seq<seq<byte>>, b: seq<seq<byte>>)
    ensures Flatten(a + b) == Flatten(a) + Flatten(b)
    decreases |b|
  {
    if b == [] {
      assert a + b == a;
    } else {
      var b' := b[..|b| - 1];
      assert (a + b)[..|a + b| - 1] == a + b';
      FlattenAppend(a, b');
    }
  }

  lemma FlattenCons(x: seq<byte>, xs: seq<seq<byte>>)
    ensures Flatten([x] + xs) == x + Flatten(xs)
  {
    FlattenAppend([x], xs);
    assert Flatten([x]) == Flatten([]) + x;
  }

  /** A frame: at least one byte, ends with its newline, holds no other newline. */
  predicate IsFrame(f: seq<byte>)
  {
    |f| > 0 && f[|f| - 1] == NEWLINE && NEWLINE !in f[..|f| - 1]
  }

  /** The bytes after the last newline of `s`: the frame still being assembled. */
  function Pending(s: seq<byte>): seq<byte>
  {
    if s == [] then []
    else if s[|s| - 1] == NEWLINE then []
    else Pending(s[..|s| - 1]) + [s[|s| - 1]]
  }

  /** The complete frames of `s`, in order, each with its terminating newline. */
  function Frames(s: seq<byte>): seq<seq<byte>>
  {
    if s == [] then []
    else if s[|s| - 1] == NEWLINE then Frames(s[..|s| - 1]) + [Pending(s[..|s| - 1]) + [NEWLINE]]
    else Frames(s[..|s| - 1])
  }

  /** The pending bytes never hold a newline. */
  lemma {:induction false} PendingNoNewline(s: seq<byte>)
    ensures NEWLINE !in Pending(s)
    decreases |s|
  {
    if s != [] && s[|s| - 1] != NEWLINE {
      PendingNoNewline(s[..|s| - 1]);
    }
  }

  /** The frames followed by the pending bytes give back the string. */
  lemma {:induction false} FramesCover(s: seq<byte>)
    ensures Flatten(Frames(s)) + Pending(s) == s
    decreases |s|
  {
    if s != [] {
      var s', x := s[..|s| - 1], s[|s| - 1];
      FramesCover(s');
      assert s == s' + [x];
      FramesCoverSnoc(s', x);
    }
  }

  /** One more byte keeps the frames and the pending bytes covering the string. */
  lemma FramesCoverSnoc(s: seq<byte>, x: byte)
    requires Flatten(Frames(s)) + Pending(s) == s
    ensures Flatten(Frames(s + [x])) + Pending(s + [x]) == s + [x]
  {
    FramesSnoc(s, x);
    if x == NEWLINE {
      var fs, f := Frames(s), Pending(s) + [NEWLINE];
      assert (fs + [f])[..|fs|] == fs;
      assert Flatten(fs + [f]) == Flatten(fs) + f;
    }
  }

  /** Every element of `Frames(s)` is a frame. */
  lemma {:induction false} FramesAreFrames(s: seq<byte>)
    ensures forall k :: 0 <= k < |Frames(s)| ==> IsFrame(Frames(s)[k])
    decreases |s|
  {
    if s != [] {
      var s', x := s[..|s| - 1], s[|s| - 1];
      FramesAreFrames(s');
      if x == NEWLINE {
        var fs', f := Frames(s'), Pending(s') + [NEWLINE];
        PendingNoNewline(s');
        assert f[..|f| - 1] == Pending(s');
        var fs := fs' + [f];
        forall k | 0 <= k < |fs| ensures IsFrame(fs[k]) {
          if k < |fs'| {
            assert fs[k] == fs'[k];
          }
        }
      }
    }
  }

  /**
    `Frames` and `Pending` split a byte string exactly: the frames followed by
    the pending bytes give back the string, every frame is a frame, and the
    pending bytes hold no newline.
  */
  lemma FramesSplit(s: seq<byte>)
    ensures Flatten(Frames(s)) + Pending(s) == s
    ensures forall k :: 0 <= k < |Frames(s)| ==> IsFrame(Frames(s)[k])
    ensures NEWLINE !in Pending(s)
  {
    FramesCover(s);
    FramesAreFrames(s);
    PendingNoNewline(s);
  }

  /** The split of `FramesSplit` is the only one: frames and pending bytes are determined by the string. */
  lemma {:induction false} FramesUnique(s: seq<byte>, fs: seq<seq<byte>>, p: seq<byte>)
    requires Flatten(fs) + p == s
    requires forall k :: 0 <= k < |fs| ==> IsFrame(fs[k])
    requires NEWLINE !in p
    ensures fs == Frames(s) && p == Pending(s)
    decreases |s|
  {
    if p != [] {
      var s', p' := s[..|s| - 1], p[..|p| - 1];
      assert s == Flatten(fs) + p' + [p[|p| - 1]];
      assert s' == Flatten(fs) + p';
      FramesUnique(s', fs, p');
      assert s[|s| - 1] == p[|p| - 1] != NEWLINE;
      assert p == p' + [p[|p| - 1]];
    } else if fs != [] {
      var fs', f := fs[..|fs| - 1], fs[|fs| - 1];
      assert fs == fs' + [f];
      var f' := f[..|f| - 1];
      assert f == f' + [NEWLINE];
      assert s == Flatten(fs') + f' + [NEWLINE];
      assert s[..|s| - 1] == Flatten(fs') + f';
      assert forall k :: 0 <= k < |fs'| ==> fs'[k] == fs[k];
      FramesUnique(s[..|s| - 1], fs', f');
    } else {
      assert s == [];
    }
  }

  /** Cutting a string just after one of its newlines leaves the earlier frames in place. */
  lemma FramesSnoc(s: seq<byte>, x: byte)
    ensures (s + [x])[..|s|] == s
    ensures Frames(s + [x]) == if x == NEWLINE then Frames(s) + [Pending(s) + [NEWLINE]] else Frames(s)
    ensures Pending(s + [x]) == if x == NEWLINE then [] else Pending(s) + [x]
  {
    assert (s + [x])[..|s|] == s;
  }

  /**
    Framing resumes across a boundary: the frames of `a + b` are those of
    `a` followed by those the pending bytes of `a` form with `b`, and the
    bytes left pending are the same.
  */
  lemma FramesResume(a: seq<byte>, b: seq<byte>)
    ensures Frames(a + b) == Frames(a) + Frames(Pending(a) + b)
    ensures Pending(a + b) == Pending(Pending(a) + b)
  {
    var pa := Pending(a);
    var fa, fb, pb := Frames(a), Frames(pa + b), Pending(pa + b);
    FramesSplit(a);
    FramesSplit(pa + b);
    FlattenAppend(fa, fb);
    Reassociate(a, b, Flatten(fa), pa, Flatten(fb), pb);
    assert forall k :: 0 <= k < |fa + fb| ==> IsFrame((fa + fb)[k]) by {
      forall k | 0 <= k < |fa + fb|
        ensures IsFrame((fa + fb)[k])
      {
        if k >= |fa| {
          assert (fa + fb)[k] == fb[k - |fa|];
        }
      }
    }
    FramesUnique(a + b, fa + fb, Pending(Pending(a) + b));
  }

  /** Splitting `a` and then `pa + b` splits `a + b`. */
  lemma Reassociate(a: seq<byte>, b: seq<byte>, xa: seq<byte>, pa: seq<byte>, xb: seq<byte>, pb: seq<byte>)
    requires xa + pa == a && xb + pb == pa + b
    ensures xa + xb + pb == a + b
  {
    calc {
      xa + xb + pb;
      xa + (xb + pb);
      xa + (pa + b);
      xa + pa + b;
    }
  }

  /** A string without a newline is all pending: it holds no frame. */
  lemma {:induction false} NoNewlineNoFrames(s: seq<byte>)
    requires NEWLINE !in s
    ensures Frames(s) == [] && Pending(s) == s
    decreases |s|
  {
    if s != [] {
      var s' := s[..|s| - 1];
      assert s == s' + [s[|s| - 1]];
      NoNewlineNoFrames(s');
    }
  }

  /**
    What `fputs` writes from a NUL-terminated buffer holding `s`: the bytes
    before the first NUL of `s`, or all of `s` when it holds none.
  */
  function CString(s: seq<byte>): (r: seq<byte>)
    ensures |r| <= |s| && r == s[..|r|]
    ensures NUL !in r
    ensures |r| < |s| ==> s[|r|] == NUL
  {
    if s == [] then []
    else if s[0] == NUL then []
    else [s[0]] + CString(s[1..])
  }

  /** The C string of `s` is the NUL-free prefix that stops at the first NUL or at the end. */
  lemma CStringAt(s: seq<byte>, i: nat)
    requires i <= |s|
    requires NUL !in s[..i]
    requires i < |s| ==> s[i] == NUL
    ensures CString(s) == s[..i]
  {
  }

  /** A string without NUL reaches the file whole. */
  lemma CStringNoNul(s: seq<byte>)
    requires NUL !in s
    ensures CString(s) == s
  {
    CStringAt(s, |s|);
  }

  /** The bytes a sequence of frames leaves in the data file, each written with `fputs`. */
  function Logged(frames: seq<seq<byte>>): seq<byte>
  {
    if frames == [] then [] else Logged(frames[..|frames| - 1]) + CString(frames[|frames| - 1])
  }

  /** Frames without NUL bytes are logged verbatim, newline included. */
  lemma {:induction false} LoggedNoNul(frames: seq<seq<byte>>)
    requires forall k :: 0 <= k < |frames| ==> NUL !in frames[k]
    ensures Logged(frames) == Flatten(frames)
    decreases |frames|
  {
    if frames != [] {
      LoggedNoNul(frames[..|frames| - 1]);
      CStringNoNul(frames[|frames| - 1]);
    }
  }

  /** A frame holding a NUL loses its tail, newline included: `fputs` stops at the NUL. */
  lemma FrameWithNulLosesNewline(f: seq<byte>)
    requires IsFrame(f)
    requires NUL in f
    ensures |CString(f)| < |f| - 1 && NEWLINE !in CString(f)
  {
    var r := CString(f);
    assert f[|f| - 1] != NUL;
    assert r == f[..|r|];
    assert forall j :: 0 <= j < |r| ==> r[j] == f[..|f| - 1][j];
  }
}
