/**
 * The frame source, `Data::camera`: it cycles forever through the
 * configured image paths and, for each one, resolves a content type from
 * the extension, reads the file and yields a multipart `Part` whose
 * headers are a fresh map holding `content-type` and `content-length`.
 *
 * The filesystem is a parameter: a total function from a path to what
 * `std::fs::read` returns for it.
 */
module FrameSource {
  import opened Wrappers
  import opened Utf8
  import opened Paths
  import Decimal

  /** The operating-system error a failed read returns; its detail is opaque here. */
  datatype IoError = IoError(code: int)

  datatype ReadResult = Contents(bytes: seq<byte>) | Failed(error: IoError)

  type FileSystem = Path -> ReadResult

  /** Header names as the `http` crate spells them. */
  const CONTENT_TYPE: string := "content-type"
  const CONTENT_LENGTH: string := "content-length"

  /** A multipart body part: its headers and its payload. */
  datatype Part = Part(headers: map<string, string>, body: seq<byte>)

  /**
   * What one pass of the loop body produces: a yielded part, the I/O error
   * that ends the stream, or the panic of the extension `unwrap`.
   */
  datatype Event = Yield(part: Part) | Error(error: IoError) | Panic

  /** The exact, case-sensitive extension match; every other text falls to the generic image type. */
  function MimeForExtension(ext: string): (mime: string)
    ensures mime in {"image/jpeg", "image/png", "image/webp", "image/*"}
    ensures mime == "image/jpeg" <==> ext == "jpeg"
    ensures mime == "image/png" <==> ext == "png"
    ensures mime == "image/webp" <==> ext == "webp"
    ensures mime == "image/*" <==> ext !in {"jpeg", "png", "webp"}
  {
    if ext == "jpeg" then "image/jpeg"
    else if ext == "png" then "image/png"
    else if ext == "webp" then "image/webp"
    else "image/*"
  }

  /**
   * The frame built for path `f` against the filesystem `fs`: the
   * extension is resolved first (its `unwrap` panics before anything is
   * read), then the file is read, then the part is assembled.
   */
  function FrameFor(f: Path, fs: FileSystem): (e: Event)
    ensures e.Yield? ==> fs(f).Contents? && e.part.body == fs(f).bytes
    ensures e.Error? ==> fs(f).Failed? && e.error == fs(f).error
  {
    match ExtensionText(f)
    case None => Panic
    case Some(ext) =>
      match fs(f)
      case Failed(err) => Error(err)
      case Contents(body) =>
        Yield(Part(map[CONTENT_TYPE := MimeForExtension(ext), CONTENT_LENGTH := Decimal.Show(|body|)], body))
  }

  /**
   * What a frame is: a panic exactly when the extension is missing or not
   * UTF-8; otherwise the read's error when the read fails; otherwise a
   * part whose body is the file's bytes and whose headers are exactly the
   * content type of the extension and the body's length in decimal.
   */
  lemma FrameForMeaning(f: Path, fs: FileSystem)
    ensures FrameFor(f, fs) == Panic <==> ExtensionText(f).None?
    ensures FrameFor(f, fs).Error? <==> ExtensionText(f).Some? && fs(f).Failed?
    ensures FrameFor(f, fs).Error? ==> FrameFor(f, fs).error == fs(f).error
    ensures FrameFor(f, fs).Yield? <==> ExtensionText(f).Some? && fs(f).Contents?
    ensures FrameFor(f, fs).Yield? ==>
      var part := FrameFor(f, fs).part;
      && part.body == fs(f).bytes
      && part.headers.Keys == {CONTENT_TYPE, CONTENT_LENGTH}
      && part.headers[CONTENT_TYPE] == MimeForExtension(ExtensionText(f).value)
      && Decimal.AllDigits(part.headers[CONTENT_LENGTH])
      && Decimal.Parse(part.headers[CONTENT_LENGTH]) == |part.body|
  {
    if ExtensionText(f).Some? && fs(f).Contents? {
      Decimal.ParseShow(|fs(f).bytes|);
    }
  }

  /** No event of `s` ends the stream. */
  predicate Live(s: seq<Event>) {
    forall i :: 0 <= i < |s| ==> s[i].Yield?
  }

  // Arithmetic on the loop position

  /** `x mod n`, by repeated subtraction: the list index that loop position `x` visits. */
  function Wrap(x: nat, n: nat): (r: nat)
    requires n > 0
    ensures r < n
    decreases x
  {
    if x < n then x else Wrap(x - n, n)
  }

  lemma {:induction false} MulAtLeast(a: int, n: int)
    requires a >= 1 && n > 0
    ensures a * n >= n
    decreases a
  {
    if a > 1 {
      MulAtLeast(a - 1, n);
      assert a * n == (a - 1) * n + n;
    }
  }

  lemma DivModUnique(x: int, n: int, q: int, r: int)
    requires n > 0 && 0 <= r < n && x == q * n + r
    ensures x % n == r
  {
    var q2, r2 := x / n, x % n;
    assert x == q2 * n + r2;
    if q > q2 {
      assert (q - q2) * n == q * n - q2 * n;
      MulAtLeast(q - q2, n);
    } else if q < q2 {
      assert (q2 - q) * n == q2 * n - q * n;
      MulAtLeast(q2 - q, n);
    }
  }

  /** `Wrap` is Euclidean remainder. */
  lemma {:induction false} WrapIsMod(x: nat, n: nat)
    requires n > 0
    ensures Wrap(x, n) == x % n
    decreases x
  {
    if x >= n {
      WrapIsMod(x - n, n);
      var q := (x - n) / n;
      assert x - n == q * n + (x - n) % n;
      assert x == (q + 1) * n + (x - n) % n;
      DivModUnique(x, n, q + 1, (x - n) % n);
    }
  }

  lemma {:induction false} WrapSucc(x: nat, n: nat)
    requires n > 0
    ensures Wrap(x + 1, n) == if Wrap(x, n) + 1 == n then 0 else Wrap(x, n) + 1
    decreases x
  {
    if x >= n {
      WrapSucc(x - n, n);
    }
  }

  lemma {:induction false} WrapAdd(m: nat, t: nat, n: nat)
    requires n > 0
    ensures Wrap(m + t, n) == Wrap(Wrap(m, n) + t, n)
    decreases m
  {
    if m >= n {
      WrapAdd(m - n, t, n);
      assert m + t - n == (m - n) + t;
    }
  }

  // The stream of the camera loop, for any loop body `step`

  /**
   * The first `k` events of `loop { for f in imgs { step(f) } }`, fewer
   * when a step ends the stream: each pass appends the step of the next
   * image in turn, `imgs[i mod N]` for pass `i`, until an event is not a
   * yield. An empty list produces nothing.
   */
  function Stream(imgs: seq<Path>, step: Path -> Event, k: nat): (r: seq<Event>)
    ensures |r| <= k
    decreases k
  {
    if k == 0 then []
    else
      var prior := Stream(imgs, step, k - 1);
      if imgs != [] && Live(prior) then prior + [step(imgs[Wrap(k - 1, |imgs|)])] else prior
  }

  /**
   * Event `i` of the stream is the step of `imgs[i mod N]`; only the last
   * event can be other than a yield; a stream shorter than asked for ends
   * in a non-yield; an empty list produces nothing.
   */
  lemma {:induction false} StreamIndex(imgs: seq<Path>, step: Path -> Event, k: nat)
    ensures imgs == [] ==> Stream(imgs, step, k) == []
    ensures forall i :: 0 <= i < |Stream(imgs, step, k)| ==>
      imgs != [] && Stream(imgs, step, k)[i] == step(imgs[Wrap(i, |imgs|)])
    ensures forall i :: 0 <= i < |Stream(imgs, step, k)| - 1 ==> Stream(imgs, step, k)[i].Yield?
    ensures imgs != [] && |Stream(imgs, step, k)| < k ==>
      Stream(imgs, step, k) != [] && !Stream(imgs, step, k)[|Stream(imgs, step, k)| - 1].Yield?
  {
    if k > 0 {
      StreamIndex(imgs, step, k - 1);
      var prior := Stream(imgs, step, k - 1);
      if imgs != [] && Live(prior) {
        var r := prior + [step(imgs[Wrap(k - 1, |imgs|)])];
        assert Stream(imgs, step, k) == r;
        forall i | 0 <= i < |r| ensures r[i] == step(imgs[Wrap(i, |imgs|)]) {
          if i < |prior| {
            assert r[i] == prior[i];
          }
        }
      }
    }
  }

  /** Every configured image yields a part: the list is non-empty and no step ends the stream. */
  predicate AllYield(imgs: seq<Path>, step: Path -> Event) {
    imgs != [] && forall i :: 0 <= i < |imgs| ==> step(imgs[i]).Yield?
  }

  /** Once the stream has ended, asking for more events gives nothing more. */
  lemma {:induction false} StreamEnded(imgs: seq<Path>, step: Path -> Event, k: nat, k': nat)
    requires k <= k'
    requires imgs == [] || !Live(Stream(imgs, step, k))
    ensures Stream(imgs, step, k') == Stream(imgs, step, k)
    decreases k' - k
  {
    if k < k' {
      StreamEnded(imgs, step, k + 1, k');
    }
  }

  /** The stream is consistent: a shorter request is a prefix of a longer one. */
  lemma {:induction false} StreamPrefix(imgs: seq<Path>, step: Path -> Event, k: nat, k': nat)
    requires k <= k'
    ensures |Stream(imgs, step, k)| <= |Stream(imgs, step, k')|
    ensures Stream(imgs, step, k) == Stream(imgs, step, k')[..|Stream(imgs, step, k)|]
    decreases k' - k
  {
    if k < k' {
      StreamPrefix(imgs, step, k + 1, k');
    }
  }

  /** When every image yields, the stream never ends: `k` requested events are `k` parts. */
  lemma NeverEnds(imgs: seq<Path>, step: Path -> Event, k: nat)
    requires AllYield(imgs, step)
    ensures |Stream(imgs, step, k)| == k && Live(Stream(imgs, step, k))
  {
    StreamIndex(imgs, step, k);
  }

  /** One cycle through the image list, starting at list position `d`. */
  function Round(imgs: seq<Path>, step: Path -> Event, d: nat): seq<Event>
    requires imgs != []
  {
    seq(|imgs|, i requires 0 <= i < |imgs| => step(imgs[Wrap(d + i, |imgs|)]))
  }

  /**
   * The cycle: when every image yields, any `2N` consecutive events are
   * one full round of the list, from the list position the window starts
   * at (`m mod N`), followed by the same round again.
   */
  lemma {:induction false} CycleWindow(imgs: seq<Path>, step: Path -> Event, m: nat)
    requires AllYield(imgs, step)
    ensures |Stream(imgs, step, m + 2 * |imgs|)| == m + 2 * |imgs|
    ensures Stream(imgs, step, m + 2 * |imgs|)[m..]
      == Round(imgs, step, Wrap(m, |imgs|)) + Round(imgs, step, Wrap(m, |imgs|))
  {
    var n := |imgs|;
    var f := Stream(imgs, step, m + 2 * n);
    NeverEnds(imgs, step, m + 2 * n);
    StreamIndex(imgs, step, m + 2 * n);
    var r := Round(imgs, step, Wrap(m, n));
    var w := f[m..];
    assert |w| == 2 * n;
    forall t | 0 <= t < 2 * n
      ensures w[t] == (r + r)[t]
    {
      assert w[t] == f[m + t] == step(imgs[Wrap(m + t, n)]);
      WindowAt(imgs, step, m, t);
    }
    assert w == r + r;
  }

  lemma WindowAt(imgs: seq<Path>, step: Path -> Event, m: nat, t: nat)
    requires imgs != [] && t < 2 * |imgs|
    ensures var r := Round(imgs, step, Wrap(m, |imgs|));
      step(imgs[Wrap(m + t, |imgs|)]) == (r + r)[t]
  {
    var n := |imgs|;
    var d := Wrap(m, n);
    var r := Round(imgs, step, d);
    WrapAdd(m, t, n);
    if t < n {
      assert (r + r)[t] == r[t];
    } else {
      assert (r + r)[t] == r[t - n];
      assert Wrap(d + t, n) == Wrap(d + (t - n), n);
    }
  }

  /** A round from position 0 is the image list itself, in order. */
  lemma RoundFromStart(imgs: seq<Path>, step: Path -> Event)
    requires imgs != []
    ensures |Round(imgs, step, 0)| == |imgs|
    ensures forall i :: 0 <= i < |imgs| ==> Round(imgs, step, 0)[i] == step(imgs[i])
  {
    forall i | 0 <= i < |imgs| ensures Round(imgs, step, 0)[i] == step(imgs[i]) {
      assert Wrap(0 + i, |imgs|) == i;
    }
  }

  /** Any round is a rotation of the round from position 0: nothing skipped, nothing repeated. */
  lemma RoundIsRotation(imgs: seq<Path>, step: Path -> Event, d: nat)
    requires imgs != [] && d < |imgs|
    ensures Round(imgs, step, d) == Round(imgs, step, 0)[d..] + Round(imgs, step, 0)[..d]
  {
    var n := |imgs|;
    var r0 := Round(imgs, step, 0);
    RoundFromStart(imgs, step);
    forall i | 0 <= i < n
      ensures Round(imgs, step, d)[i] == (r0[d..] + r0[..d])[i]
    {
      if d + i >= n {
        assert Wrap(d + i, n) == Wrap(d + i - n, n);
      }
    }
  }

  /** Events one list length apart are the same event. */
  lemma CyclePeriodic(imgs: seq<Path>, step: Path -> Event, k: nat, i: nat)
    requires AllYield(imgs, step) && i + |imgs| < k
    ensures |Stream(imgs, step, k)| == k
    ensures Stream(imgs, step, k)[i + |imgs|] == Stream(imgs, step, k)[i]
  {
    NeverEnds(imgs, step, k);
    StreamIndex(imgs, step, k);
    assert Wrap(i + |imgs|, |imgs|) == Wrap(i, |imgs|);
  }

  /**
   * The first position whose event is not a yield ends the stream there:
   * the stream is exactly the events up to and including it, whatever
   * more is asked for.
   */
  lemma StopsAtFirstFailure(imgs: seq<Path>, step: Path -> Event, j: nat, k: nat)
    requires imgs != [] && j < k
    requires forall i :: 0 <= i < j ==> step(imgs[Wrap(i, |imgs|)]).Yield?
    requires !step(imgs[Wrap(j, |imgs|)]).Yield?
    ensures |Stream(imgs, step, k)| == j + 1
    ensures Stream(imgs, step, k)[j] == step(imgs[Wrap(j, |imgs|)])
    ensures forall i :: 0 <= i < j ==> Stream(imgs, step, k)[i].Yield?
    ensures Stream(imgs, step, k) == Stream(imgs, step, j + 1)
  {
    var f := Stream(imgs, step, j + 1);
    StreamIndex(imgs, step, j + 1);
    assert !Live(f) by {
      assert f[j] == step(imgs[Wrap(j, |imgs|)]);
    }
    StreamEnded(imgs, step, j + 1, k);
  }

  // The camera's stream

  /** The loop body of `Data::camera` against the filesystem `fs`. */
  function Step(fs: FileSystem): Path -> Event
  {
    (f: Path) => FrameFor(f, fs)
  }

  /** The first `k` events of a fresh camera stream (fewer when it ends sooner). */
  function Frames(imgs: seq<Path>, fs: FileSystem, k: nat): (r: seq<Event>)
    ensures |r| <= k
  {
    Stream(imgs, Step(fs), k)
  }

  /** Appending an event to a live sequence keeps every earlier entry a part; the result is live exactly when the event is a part. */
  lemma LiveSnoc(h: seq<Event>, e: Event)
    requires Live(h)
    ensures forall i :: 0 <= i < |h + [e]| - 1 ==> (h + [e])[i].Yield?
    ensures Live(h + [e]) <==> e.Yield?
  {
    assert (h + [e])[|h|] == e;
  }

  /**
   * One more pass of the loop over a live prefix appends the frame for
   * the next image in turn; the longer prefix is live exactly when that
   * frame is a part.
   */
  lemma FramesExtend(imgs: seq<Path>, fs: FileSystem, h: seq<Event>, e: Event)
    requires imgs != [] && Live(h) && h == Frames(imgs, fs, |h|)
    requires e == FrameFor(imgs[Wrap(|h|, |imgs|)], fs)
    ensures h + [e] == Frames(imgs, fs, |h + [e]|)
    ensures Live(h + [e]) <==> e.Yield?
  {
    LiveSnoc(h, e);
    assert Step(fs)(imgs[Wrap(|h|, |imgs|)]) == e;
    assert |h + [e]| == |h| + 1;
  }

  /** After a panic or an I/O error the camera stream produces nothing more. */
  lemma FramesEnded(imgs: seq<Path>, fs: FileSystem, k: nat, k': nat)
    requires k <= k' && !Live(Frames(imgs, fs, k))
    ensures Frames(imgs, fs, k') == Frames(imgs, fs, k)
  {
    StreamEnded(imgs, Step(fs), k, k');
  }

  /**
   * Frame `i` of the stream is built from `imgs[i mod N]`; only the last
   * frame can be a panic or an I/O error; an empty list produces nothing.
   */
  lemma FramesIndex(imgs: seq<Path>, fs: FileSystem, k: nat, i: nat)
    requires i < |Frames(imgs, fs, k)|
    ensures imgs != [] && Frames(imgs, fs, k)[i] == FrameFor(imgs[i % |imgs|], fs)
    ensures i < |Frames(imgs, fs, k)| - 1 ==> Frames(imgs, fs, k)[i].Yield?
  {
    StreamIndex(imgs, Step(fs), k);
    WrapIsMod(i, |imgs|);
  }

  /**
   * If reading `imgs[j mod N]` fails after every earlier frame was a part,
   * the stream ends with that I/O error: no part for the file, nothing after.
   */
  lemma ReadFailureEndsStream(imgs: seq<Path>, fs: FileSystem, j: nat, k: nat)
    requires imgs != [] && j < k
    requires forall i :: 0 <= i < j ==> FrameFor(imgs[i % |imgs|], fs).Yield?
    requires ExtensionText(imgs[j % |imgs|]).Some? && fs(imgs[j % |imgs|]).Failed?
    ensures |Frames(imgs, fs, k)| == j + 1
    ensures Frames(imgs, fs, k)[j] == Error(fs(imgs[j % |imgs|]).error)
    ensures forall i :: 0 <= i < j ==> Frames(imgs, fs, k)[i].Yield?
    ensures Frames(imgs, fs, k) == Frames(imgs, fs, j + 1)
  {
    var x := imgs[j % |imgs|];
    assert FrameFor(x, fs) == Error(fs(x).error) by {
      FrameForMeaning(x, fs);
    }
    FirstNonYieldEnds(imgs, fs, j, k);
  }

  /** A path whose extension is missing or not UTF-8 ends the stream with a panic at its position. */
  lemma BadExtensionPanics(imgs: seq<Path>, fs: FileSystem, j: nat, k: nat)
    requires imgs != [] && j < k
    requires forall i :: 0 <= i < j ==> FrameFor(imgs[i % |imgs|], fs).Yield?
    requires ExtensionText(imgs[j % |imgs|]).None?
    ensures |Frames(imgs, fs, k)| == j + 1
    ensures Frames(imgs, fs, k)[j] == Panic
    ensures Frames(imgs, fs, k) == Frames(imgs, fs, j + 1)
  {
    var x := imgs[j % |imgs|];
    assert FrameFor(x, fs) == Panic by {
      FrameForMeaning(x, fs);
    }
    FirstNonYieldEnds(imgs, fs, j, k);
  }

  /** `StopsAtFirstFailure` for the camera stream, with list positions written as `mod`. */
  lemma FirstNonYieldEnds(imgs: seq<Path>, fs: FileSystem, j: nat, k: nat)
    requires imgs != [] && j < k
    requires forall i :: 0 <= i < j ==> FrameFor(imgs[i % |imgs|], fs).Yield?
    requires !FrameFor(imgs[j % |imgs|], fs).Yield?
    ensures |Frames(imgs, fs, k)| == j + 1
    ensures Frames(imgs, fs, k)[j] == FrameFor(imgs[j % |imgs|], fs)
    ensures forall i :: 0 <= i < j ==> Frames(imgs, fs, k)[i].Yield?
    ensures Frames(imgs, fs, k) == Frames(imgs, fs, j + 1)
  {
    var n := |imgs|;
    var step := Step(fs);
    assert forall i :: 0 <= i < j ==> step(imgs[Wrap(i, n)]).Yield? by {
      forall i | 0 <= i < j ensures step(imgs[Wrap(i, n)]).Yield? {
        WrapIsMod(i, n);
      }
    }
    assert step(imgs[Wrap(j, n)]) == FrameFor(imgs[j % n], fs) by {
      WrapIsMod(j, n);
    }
    StopsAtFirstFailure(imgs, step, j, k);
  }

  /** Every configured image gives a part: the list is non-empty, each extension resolves and each read succeeds. */
  predicate AllFramesYield(imgs: seq<Path>, fs: FileSystem) {
    imgs != [] && forall i :: 0 <= i < |imgs| ==> FrameFor(imgs[i], fs).Yield?
  }

  /** The frame of each configured image, in list order. */
  function ListFrames(imgs: seq<Path>, fs: FileSystem): (r: seq<Event>)
    ensures |r| == |imgs|
    ensures forall i :: 0 <= i < |imgs| ==> r[i] == FrameFor(imgs[i], fs)
  {
    seq(|imgs|, i requires 0 <= i < |imgs| => FrameFor(imgs[i], fs))
  }

  /** The loop body of the camera yields on every image exactly when every frame is a part. */
  lemma AllFramesYieldIsAllYield(imgs: seq<Path>, fs: FileSystem)
    ensures AllFramesYield(imgs, fs) <==> AllYield(imgs, Step(fs))
  {
    if imgs != [] {
      assert forall i :: 0 <= i < |imgs| ==> Step(fs)(imgs[i]) == FrameFor(imgs[i], fs);
    }
  }

  /** A round of the camera loop from list position `d` is the list's frames rotated by `d`. */
  lemma CameraRound(imgs: seq<Path>, fs: FileSystem, d: nat)
    requires imgs != [] && d < |imgs|
    ensures Round(imgs, Step(fs), d) == ListFrames(imgs, fs)[d..] + ListFrames(imgs, fs)[..d]
  {
    var r0 := Round(imgs, Step(fs), 0);
    RoundFromStart(imgs, Step(fs));
    assert r0 == ListFrames(imgs, fs);
    RoundIsRotation(imgs, Step(fs), d);
  }

  /**
   * When every image gives a part, the stream never ends, and any `2N`
   * consecutive frames, starting at frame `m`, are the list's frames in
   * order from position `m mod N`, twice over: nothing skipped, nothing
   * repeated early.
   */
  lemma FramesWindow(imgs: seq<Path>, fs: FileSystem, m: nat)
    requires AllFramesYield(imgs, fs)
    ensures |Frames(imgs, fs, m + 2 * |imgs|)| == m + 2 * |imgs|
    ensures Live(Frames(imgs, fs, m + 2 * |imgs|))
    ensures var d := m % |imgs|;
      var r := ListFrames(imgs, fs)[d..] + ListFrames(imgs, fs)[..d];
      Frames(imgs, fs, m + 2 * |imgs|)[m..] == r + r
  {
    AllFramesYieldIsAllYield(imgs, fs);
    NeverEnds(imgs, Step(fs), m + 2 * |imgs|);
    CycleWindow(imgs, Step(fs), m);
    WrapIsMod(m, |imgs|);
    CameraRound(imgs, fs, m % |imgs|);
  }

  /** When every image gives a part, the first `N` frames are the list's frames in order. */
  lemma FramesFirstRound(imgs: seq<Path>, fs: FileSystem)
    requires AllFramesYield(imgs, fs)
    ensures Frames(imgs, fs, |imgs|) == ListFrames(imgs, fs)
  {
    AllFramesYieldIsAllYield(imgs, fs);
    NeverEnds(imgs, Step(fs), |imgs|);
    StreamIndex(imgs, Step(fs), |imgs|);
    forall i | 0 <= i < |imgs| ensures Frames(imgs, fs, |imgs|)[i] == ListFrames(imgs, fs)[i] {
      assert Wrap(i, |imgs|) == i;
    }
  }

  /** When every image gives a part, frames one list length apart are equal. */
  lemma FramesPeriodic(imgs: seq<Path>, fs: FileSystem, k: nat, i: nat)
    requires AllFramesYield(imgs, fs) && i + |imgs| < k
    ensures |Frames(imgs, fs, k)| == k
    ensures Frames(imgs, fs, k)[i + |imgs|] == Frames(imgs, fs, k)[i]
  {
    AllFramesYieldIsAllYield(imgs, fs);
    CyclePeriodic(imgs, Step(fs), k, i);
  }

  /**
   * `loop { for f in &*imgs { … } }`: the generator itself, run until it
   * has produced `limit` events or has ended. With an empty list the
   * source spins in place forever without producing; the model returns
   * the empty prefix for that case.
   */
  method Camera(imgs: seq<Path>, fs: FileSystem, limit: nat) returns (out: seq<Event>)
    ensures out == Frames(imgs, fs, limit)
  {
    out := [];
    if imgs == [] {
      StreamIndex(imgs, Step(fs), limit);
      return;
    }
    var done := limit == 0;
    while !done
      invariant out == Frames(imgs, fs, |out|) && |out| <= limit
      invariant done ==> out == Frames(imgs, fs, limit)
      invariant !done ==> Live(out) && Wrap(|out|, |imgs|) == 0 && |out| < limit
      decreases limit - |out|
    {
      out, done := CameraPass(imgs, fs, limit, out);
      if done && |out| < limit {
        FramesEnded(imgs, fs, |out|, limit);
      }
    }
  }

  /**
   * One run of the inner `for f in &*imgs`, continuing a live prefix that
   * sits at the start of the list: it stops early when a frame ends the
   * stream or the limit is reached.
   */
  method CameraPass(imgs: seq<Path>, fs: FileSystem, limit: nat, start: seq<Event>) returns (out: seq<Event>, done: bool)
    requires imgs != [] && start == Frames(imgs, fs, |start|)
    requires Live(start) && Wrap(|start|, |imgs|) == 0 && |start| < limit
    ensures out == Frames(imgs, fs, |out|) && |start| < |out| <= limit
    ensures done <==> !Live(out) || |out| == limit
    ensures !done ==> Wrap(|out|, |imgs|) == 0
  {
    var n := |imgs|;
    out, done := start, false;
    var i := 0;
    while i < n && !done
      invariant 0 <= i <= n && |out| == |start| + i && (done ==> i > 0)
      invariant PassInvariant(imgs, fs, limit, out, i, done)
      decreases n - i
    {
      var e := BuildFrame(imgs[i], fs);
      PassStep(imgs, fs, limit, out, i, e);
      out := out + [e];
      done := !e.Yield? || |out| == limit;
      i := i + 1;
    }
  }

  /**
   * What holds between passes of the inner loop: the events so far are the
   * stream's prefix of their length, within the limit; `done` says the
   * stream has ended or the limit is reached; otherwise position `i` of the
   * list is the next one to visit.
   */
  ghost predicate PassInvariant(imgs: seq<Path>, fs: FileSystem, limit: nat, out: seq<Event>, i: nat, done: bool)
    requires imgs != []
  {
    && out == Frames(imgs, fs, |out|) && |out| <= limit
    && (done <==> !Live(out) || |out| == limit)
    && (!done ==> Wrap(|out|, |imgs|) == (if i < |imgs| then i else 0))
  }

  /** One pass of the inner loop keeps `PassInvariant`. */
  lemma PassStep(imgs: seq<Path>, fs: FileSystem, limit: nat, out: seq<Event>, i: nat, e: Event)
    requires imgs != [] && i < |imgs| && PassInvariant(imgs, fs, limit, out, i, false)
    requires e == FrameFor(imgs[i], fs)
    ensures PassInvariant(imgs, fs, limit, out + [e], i + 1, !e.Yield? || |out + [e]| == limit)
  {
    WrapSucc(|out|, |imgs|);
    FramesExtend(imgs, fs, out, e);
  }

  /**
   * One pass of the loop body: a fresh header map, the content type from
   * the extension (panicking when there is none or it is not UTF-8), the
   * read, the content length, and the part.
   */
  method BuildFrame(f: Path, fs: FileSystem) returns (e: Event)
    ensures e == FrameFor(f, fs)
  {
    var headers: map<string, string> := map[];
    var ext := ExtensionText(f);
    if ext.None? {
      return Panic;
    }
    headers := headers[CONTENT_TYPE := MimeForExtension(ext.value)];
    var read := fs(f);
    if read.Failed? {
      return Error(read.error);
    }
    var body := read.bytes;
    headers := headers[CONTENT_LENGTH := Decimal.Show(|body|)];
    e := Yield(Part(headers, body));
  }

  /** What one poll of a session's stream gives back. */
  datatype Poll =
    | Produced(event: Event)  // the next event
    | Exhausted               // the stream has ended; no more items
    | Spins                   // empty image list: the loop iterates nothing forever and the poll never returns

  /**
   * One request's stream: a cursor into the shared, read-only image list
   * that wraps at its end, and whether the stream has ended. `History` is
   * every event produced so far.
   */
  class Session {
    const imgs: seq<Path>
    var cursor: nat
    var ended: bool
    ghost var History: seq<Event>

    ghost predicate Valid()
      reads this
    {
      && (imgs == [] ==> cursor == 0 && History == [] && !ended)
      && (imgs != [] ==> cursor == Wrap(|History|, |imgs|))
      && (forall i :: 0 <= i < |History| - 1 ==> History[i].Yield?)
      && (ended <==> History != [] && !History[|History| - 1].Yield?)
    }

    /** A new session starts at the first configured image, whatever other sessions do. */
    constructor (imgs: seq<Path>)
      ensures Valid()
      ensures this.imgs == imgs && cursor == 0 && !ended && History == []
    {
      this.imgs := imgs;
      cursor := 0;
      ended := false;
      History := [];
    }

    /**
     * Polls for the next event against the filesystem as it is now. While
     * the filesystem stays the same, the history is exactly the prefix of
     * `Frames` of its length.
     */
    method Next(fs: FileSystem) returns (p: Poll)
      requires Valid()
      modifies this
      ensures Valid()
      ensures old(ended) ==> p == Exhausted && History == old(History)
      ensures !old(ended) && imgs == [] ==> p == Spins && History == old(History)
      ensures !old(ended) && imgs != [] ==>
        && p == Produced(FrameFor(imgs[Wrap(|old(History)|, |imgs|)], fs))
        && History == old(History) + [p.event]
      ensures old(History) == Frames(imgs, fs, |old(History)|) ==> History == Frames(imgs, fs, |History|)
    {
      if ended {
        return Exhausted;
      }
      if |imgs| == 0 {
        return Spins;
      }
      var e := Advance(fs);
      p := Produced(e);
    }

    /** Builds the frame for the image under the cursor and moves past it. */
    method Advance(fs: FileSystem) returns (e: Event)
      requires Valid() && !ended && imgs != []
      modifies this
      ensures Valid()
      ensures e == FrameFor(imgs[Wrap(|old(History)|, |imgs|)], fs)
      ensures History == old(History) + [e]
      ensures Live(old(History))
    {
      ghost var before := History;
      assert Live(before) by {
        forall i | 0 <= i < |before| ensures before[i].Yield? {
          if i == |before| - 1 {
            assert !ended;
          }
        }
      }
      WrapSucc(|History|, |imgs|);
      e := BuildFrame(imgs[cursor], fs);
      LiveSnoc(before, e);
      History := History + [e];
      ended := !e.Yield?;
      cursor := if cursor + 1 == |imgs| then 0 else cursor + 1;
    }
  }

  /**
   * Two sessions on one list are independent: after the first has moved
   * on, the second still starts at the first image.
   */
  method IndependentSessions(imgs: seq<Path>, fs: FileSystem) returns (first: Poll, second: Poll, other: Poll)
    requires imgs != []
    ensures first == Produced(FrameFor(imgs[0], fs))
    ensures other == Produced(FrameFor(imgs[0], fs))
    ensures FrameFor(imgs[0], fs).Yield? ==> second == Produced(FrameFor(imgs[Wrap(1, |imgs|)], fs))
  {
    var a := new Session(imgs);
    var b := new Session(imgs);
    first := a.Next(fs);
    second := a.Next(fs);
    other := b.Next(fs);
  }
}
