/**
 * The HTTP endpoint `GET /`: a `200 OK` response whose content type is
 * `multipart/x-mixed-replace` with the boundary the body's serializer
 * uses, and whose body is the camera's stream of frames.
 */
module Endpoint {
  import opened Wrappers
  import opened Paths
  import opened FrameSource

  /** The multipart boundary, fixed at compile time. */
  const DELIMITER: string := "foo"

  /** Everything of the content type up to the boundary value. */
  const MIXED_REPLACE: string := "multipart/x-mixed-replace; boundary="

  const STATUS_OK: nat := 200

  /** The content type announcing a mixed-replace body cut by `boundary`. */
  function ContentTypeFor(boundary: string): (m: string)
    ensures BoundaryOf(m) == Some(boundary)
  {
    MIXED_REPLACE + boundary
  }

  /** The boundary a client reads back from a mixed-replace content type, if it is one. */
  function BoundaryOf(m: string): Option<string>
  {
    if |MIXED_REPLACE| <= |m| && m[..|MIXED_REPLACE|] == MIXED_REPLACE then Some(m[|MIXED_REPLACE|..]) else None
  }

  /** Conversely, every content type with a boundary is the one built from it. */
  lemma {:induction false} ContentTypeOfBoundary(m: string, boundary: string)
    requires BoundaryOf(m) == Some(boundary)
    ensures ContentTypeFor(boundary) == m
  {
    assert m == m[..|MIXED_REPLACE|] + m[|MIXED_REPLACE|..];
  }

  /** What the handler hands to the server: status, content type, serializer boundary, parts. */
  datatype Response = Response(status: nat, contentType: string, boundary: string, parts: seq<Event>)

  /**
   * The response to `GET /` once `k` events of the camera have been
   * produced: the announced boundary is the one the parts are cut with.
   */
  function Get(imgs: seq<Path>, fs: FileSystem, k: nat): (r: Response)
    ensures r.status == STATUS_OK
    ensures r.contentType == "multipart/x-mixed-replace; boundary=foo"
    ensures BoundaryOf(r.contentType) == Some(r.boundary)
    ensures r.parts == Frames(imgs, fs, k)
  {
    Response(STATUS_OK, ContentTypeFor(DELIMITER), DELIMITER, Frames(imgs, fs, k))
  }
}
