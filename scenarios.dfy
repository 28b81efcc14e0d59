/**
 * Concrete runs of the camera on small image lists: the alternation of
 * two images, a missing file, a path without an extension, an extension
 * that is not UTF-8, an unknown extension, and a file deleted between
 * two polls of one session.
 */
module Scenarios {
  import opened Wrappers
  import opened Utf8
  import opened Paths
  import opened FrameSource
  import Decimal

  /** `a.jpeg`, `b.png`, `c.bin`, `.jpeg` as bytes. */
  const A_JPEG: Path := [0x61, 0x2E, 0x6A, 0x70, 0x65, 0x67]
  const B_PNG: Path := [0x62, 0x2E, 0x70, 0x6E, 0x67]
  const C_BIN: Path := [0x63, 0x2E, 0x62, 0x69, 0x6E]
  const HIDDEN_JPEG: Path := [0x2E, 0x6A, 0x70, 0x65, 0x67]

  /** The error `std::fs::read` returns for a file that does not exist (`ENOENT`). */
  const NOT_FOUND: IoError := IoError(2)

  /** The part the camera yields for a body read from a file whose extension maps to `mime`. */
  function PartOf(mime: string, body: seq<byte>): Event {
    Yield(Part(map[CONTENT_TYPE := mime, CONTENT_LENGTH := Decimal.Show(|body|)], body))
  }

  lemma ExtensionOfAJpeg()
    ensures ExtensionText(A_JPEG) == Some("jpeg")
  {
    assert A_JPEG == [0x61] + [DOT] + Encode("jpeg");
    ExtensionTextAppend([0x61], "jpeg");
  }

  lemma ExtensionOfBPng()
    ensures ExtensionText(B_PNG) == Some("png")
  {
    assert B_PNG == [0x62] + [DOT] + Encode("png");
    ExtensionTextAppend([0x62], "png");
  }

  lemma ExtensionOfCBin()
    ensures ExtensionText(C_BIN) == Some("bin")
  {
    assert C_BIN == [0x63] + [DOT] + Encode("bin");
    ExtensionTextAppend([0x63], "bin");
  }

  /** The match is exact and case-sensitive: near misses fall to the generic image type. */
  lemma NearMissesAreGeneric()
    ensures MimeForExtension("jpg") == "image/*"
    ensures MimeForExtension("JPEG") == "image/*"
    ensures MimeForExtension("") == "image/*"
  {
  }

  /** A readable `a.jpeg` becomes a JPEG part with the file's bytes. */
  lemma JpegFrame(fs: FileSystem, a: seq<byte>)
    requires fs(A_JPEG) == Contents(a)
    ensures FrameFor(A_JPEG, fs) == PartOf("image/jpeg", a)
  {
    ExtensionOfAJpeg();
    assert MimeForExtension("jpeg") == "image/jpeg";
  }

  /** A readable `b.png` becomes a PNG part with the file's bytes. */
  lemma PngFrame(fs: FileSystem, b: seq<byte>)
    requires fs(B_PNG) == Contents(b)
    ensures FrameFor(B_PNG, fs) == PartOf("image/png", b)
  {
    ExtensionOfBPng();
    assert MimeForExtension("png") == "image/png";
  }

  /** Two images that both yield alternate: the third frame repeats the first. */
  lemma PairAlternates(x: Path, y: Path, fs: FileSystem)
    requires FrameFor(x, fs).Yield? && FrameFor(y, fs).Yield?
    ensures Frames([x, y], fs, 3) == [FrameFor(x, fs), FrameFor(y, fs), FrameFor(x, fs)]
  {
    var imgs := [x, y];
    var f := Frames(imgs, fs, 3);
    assert AllYield(imgs, Step(fs)) by {
      assert AllFramesYield(imgs, fs);
      AllFramesYieldIsAllYield(imgs, fs);
    }
    NeverEnds(imgs, Step(fs), 3);
    StreamIndex(imgs, Step(fs), 3);
    assert Wrap(0, 2) == 0 && Wrap(1, 2) == 1 && Wrap(2, 2) == 0;
    assert f[0] == FrameFor(x, fs) && f[1] == FrameFor(y, fs) && f[2] == FrameFor(x, fs);
  }

  /**
   * `[a.jpeg, b.png]` with both files present: the first three frames are
   * a JPEG part with `a`'s bytes, a PNG part with `b`'s bytes, then the
   * JPEG part again.
   */
  lemma TwoImagesAlternate(fs: FileSystem, a: seq<byte>, b: seq<byte>)
    requires fs(A_JPEG) == Contents(a) && fs(B_PNG) == Contents(b)
    ensures Frames([A_JPEG, B_PNG], fs, 3) == [PartOf("image/jpeg", a), PartOf("image/png", b), PartOf("image/jpeg", a)]
  {
    JpegFrame(fs, a);
    PngFrame(fs, b);
    PairAlternates(A_JPEG, B_PNG, fs);
  }

  /** `[c.bin]`: every frame is a part typed with the generic image type, and the stream never ends. */
  lemma UnknownExtensionIsGeneric(fs: FileSystem, c: seq<byte>, k: nat)
    requires fs(C_BIN) == Contents(c)
    ensures |Frames([C_BIN], fs, k)| == k
    ensures forall i :: 0 <= i < k ==> Frames([C_BIN], fs, k)[i] == PartOf("image/*", c)
  {
    var imgs := [C_BIN];
    assert FrameFor(C_BIN, fs) == PartOf("image/*", c) by {
      ExtensionOfCBin();
    }
    assert AllYield(imgs, Step(fs)) by {
      assert AllFramesYield(imgs, fs);
      AllFramesYieldIsAllYield(imgs, fs);
    }
    NeverEnds(imgs, Step(fs), k);
    StreamIndex(imgs, Step(fs), k);
  }

  /**
   * `[a.jpeg, b.png]` with `b.png` missing: a JPEG part, then the read
   * error, and nothing after it however many frames are asked for.
   */
  lemma MissingFileEndsStream(fs: FileSystem, a: seq<byte>, k: nat)
    requires fs(A_JPEG) == Contents(a) && fs(B_PNG) == Failed(NOT_FOUND) && k >= 2
    ensures Frames([A_JPEG, B_PNG], fs, k) == [PartOf("image/jpeg", a), Error(NOT_FOUND)]
  {
    JpegFrame(fs, a);
    assert FrameFor(B_PNG, fs) == Error(NOT_FOUND) by {
      ExtensionOfBPng();
    }
    SecondFails(A_JPEG, B_PNG, fs, k);
  }

  /** When the first of two images yields and the second does not, the stream is those two events. */
  lemma SecondFails(x: Path, y: Path, fs: FileSystem, k: nat)
    requires FrameFor(x, fs).Yield? && !FrameFor(y, fs).Yield? && k >= 2
    ensures Frames([x, y], fs, k) == [FrameFor(x, fs), FrameFor(y, fs)]
  {
    var imgs := [x, y];
    StreamIndex(imgs, Step(fs), 2);
    assert Wrap(0, 2) == 0 && Wrap(1, 2) == 1;
    var f := Frames(imgs, fs, 2);
    assert |f| == 2 by {
      StreamIndex(imgs, Step(fs), 1);
      assert |Frames(imgs, fs, 1)| == 1;
    }
    assert f == [FrameFor(x, fs), FrameFor(y, fs)];
    FramesEnded(imgs, fs, 2, k);
  }

  /** A path with no dot anywhere panics at the extension `unwrap`, before its file is read. */
  lemma DotlessPathPanics(p: Path, fs: FileSystem, k: nat)
    requires DOT !in p && k >= 1
    ensures Frames([p], fs, k) == [Panic]
  {
    DotlessHasNoExtension(p);
    BadExtensionPanics([p], fs, 0, k);
  }

  /** A hidden name such as `.jpeg` has no extension, so it panics too. */
  lemma HiddenNamePanics(fs: FileSystem, k: nat)
    requires k >= 1
    ensures Frames([HIDDEN_JPEG], fs, k) == [Panic]
  {
    assert HIDDEN_JPEG == [] + [DOT] + [0x6A, 0x70, 0x65, 0x67];
    HiddenNameHasNoExtension([], [0x6A, 0x70, 0x65, 0x67]);
    BadExtensionPanics([HIDDEN_JPEG], fs, 0, k);
  }

  /** An extension that is not UTF-8 (the lone byte `0xFF`) panics at the `unwrap`. */
  lemma NonUtf8ExtensionPanics(stem: Path, fs: FileSystem)
    requires stem != [] && stem[|stem| - 1] != SLASH
    ensures FrameFor(stem + [DOT] + [0xFF], fs) == Panic
  {
    ExtensionAppend(stem, [0xFF]);
    assert Decode([0xFF]) == None;
    FrameForMeaning(stem + [DOT] + [0xFF], fs);
  }

  /**
   * One session on `[a.jpeg]`: the first poll yields the file's part;
   * after the file is deleted the next poll gives the read error, and the
   * poll after that finds the stream ended.
   */
  method DeletedBetweenPolls(present: FileSystem, deleted: FileSystem, a: seq<byte>) returns (first: Poll, second: Poll, third: Poll)
    requires present(A_JPEG) == Contents(a) && deleted(A_JPEG) == Failed(NOT_FOUND)
    ensures first == Produced(PartOf("image/jpeg", a))
    ensures second == Produced(Error(NOT_FOUND))
    ensures third == Exhausted
  {
    JpegFrame(present, a);
    assert FrameFor(A_JPEG, deleted) == Error(NOT_FOUND) by {
      ExtensionOfAJpeg();
    }
    var s := new Session([A_JPEG]);
    first := s.Next(present);
    assert Wrap(1, 1) == 0;
    second := s.Next(deleted);
    assert s.ended;
    third := s.Next(deleted);
  }
}
