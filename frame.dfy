/**
 * The frame record shared by both sidecar parsers and the driver, and the
 * one transform that resolves a packer-rotated frame (src/lib.rs).
 */
module FrameModel {
  import opened Numbers

  /** `rect: (u32, u32, u32, u32)`: origin and size of the region as stored. */
  datatype Rect = Rect(x: U32, y: U32, width: U32, height: U32)

  /** `offset: (u32, u32)`. */
  datatype Offset = Offset(dx: U32, dy: U32)

  /**
   * One named sub-image of the sheet. `rotated` says the packer stored the
   * region turned by 90 degrees.
   */
  datatype Frame = Frame(name: string, rect: Rect, offset: Offset, rotated: bool)

  function Area(r: Rect): nat {
    r.width * r.height
  }

  /**
   * `Frame::into_rotated_rect`: a rotated frame gets its width and height
   * exchanged and its flag cleared; an unrotated frame comes back as it is.
   */
  function IntoRotatedRect(f: Frame): (r: Frame)
    ensures !r.rotated
    ensures r.name == f.name && r.offset == f.offset
    ensures r.rect.x == f.rect.x && r.rect.y == f.rect.y
    ensures f.rotated ==> r.rect.width == f.rect.height && r.rect.height == f.rect.width
    ensures !f.rotated ==> r == f
  {
    if f.rotated then
      f.(rect := Rect(f.rect.x, f.rect.y, f.rect.height, f.rect.width), rotated := false)
    else
      f
  }

  /** Resolving twice is resolving once. */
  lemma IntoRotatedRectIdempotent(f: Frame)
    ensures IntoRotatedRect(IntoRotatedRect(f)) == IntoRotatedRect(f)
  {
  }

  /** The frames the transform leaves alone are exactly the unrotated ones. */
  lemma IntoRotatedRectFixedPoints(f: Frame)
    ensures IntoRotatedRect(f) == f <==> !f.rotated
  {
  }

  /** Exchanging width and height keeps the number of pixels. */
  lemma IntoRotatedRectPreservesArea(f: Frame)
    ensures Area(IntoRotatedRect(f).rect) == Area(f.rect)
  {
  }

  /**
   * Two frames that differ only in which side is width and which is height
   * resolve to the same rectangle when the first is marked rotated.
   */
  lemma IntoRotatedRectMatchesUnrotatedTwin(f: Frame)
    requires f.rotated
    ensures IntoRotatedRect(f) ==
            IntoRotatedRect(f.(rect := f.rect.(width := f.rect.height, height := f.rect.width),
                               rotated := false))
  {
  }
}
