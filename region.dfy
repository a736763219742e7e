/** Stand-in for the region collaborator of the interactor (Region.js is not part of this model).
    A region is a named area placed at (x, y) in its interactor's coordinate system; its hit
    test decides whether a point given in the region's own coordinates lies inside it. The
    model takes that hit test to be a half-open w-by-h bounding box. Regions are objects, so
    two regions are the same only when they are the same object, as in the source. */
module Regions {

  class Region {
    const name: string
    const x: int
    const y: int
    const w: int
    const h: int

    constructor (name: string, x: int, y: int, w: int, h: int)
      ensures this.name == name && this.x == x && this.y == y && this.w == w && this.h == h
    {
      this.name := name;
      this.x := x;
      this.y := y;
      this.w := w;
      this.h := h;
    }

    /** Hit test in the region's local frame (the point relative to its top-left corner). */
    predicate Pick(localX: int, localY: int) {
      0 <= localX < w && 0 <= localY < h
    }
  }
}
