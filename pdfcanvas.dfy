/**
 * The part of a reportlab canvas the converter drives: a current page size,
 * the drawings on the page being composed, the list of finished pages and
 * whether the document has been written.
 */
module PdfCanvas {

  /** `drawImage(source, x, y, width, height)`. */
  datatype Draw = Draw(source: string, x: int, y: int, width: int, height: int)

  /** A finished page: its size and what was drawn on it. */
  datatype Page = Page(width: int, height: int, draws: seq<Draw>)

  class Canvas {
    const path: string
    var pageSize: (int, int)
    var pending: seq<Draw>
    var pages: seq<Page>
    var saved: bool

    /** `canvas.Canvas(path)`: no pages yet, the library's default page size. */
    constructor (path: string, defaultSize: (int, int))
      ensures this.path == path && pageSize == defaultSize
      ensures pending == [] && pages == [] && !saved
    {
      this.path := path;
      pageSize := defaultSize;
      pending := [];
      pages := [];
      saved := false;
    }

    /** `setPageSize(size)`: applies to the page being composed and to later ones. */
    method SetPageSize(size: (int, int))
      modifies this
      ensures pageSize == size
      ensures pending == old(pending) && pages == old(pages) && saved == old(saved)
    {
      pageSize := size;
    }

    /** `drawImage(source, x, y, width, height)`: adds a drawing to the page being composed. */
    method DrawImage(source: string, x: int, y: int, width: int, height: int)
      modifies this
      ensures pending == old(pending) + [Draw(source, x, y, width, height)]
      ensures pageSize == old(pageSize) && pages == old(pages) && saved == old(saved)
    {
      pending := pending + [Draw(source, x, y, width, height)];
    }

    /** `showPage()`: closes the current page at the current size; the size carries over. */
    method ShowPage()
      modifies this
      ensures pages == old(pages) + [Page(old(pageSize).0, old(pageSize).1, old(pending))]
      ensures pending == [] && pageSize == old(pageSize) && saved == old(saved)
    {
      pages := pages + [Page(pageSize.0, pageSize.1, pending)];
      pending := [];
    }

    /** `save()`: closes a page that has drawings on it, then writes the document. */
    method Save()
      modifies this
      ensures pages == old(pages) + (if old(pending) == [] then [] else [Page(old(pageSize).0, old(pageSize).1, old(pending))])
      ensures pending == [] && pageSize == old(pageSize) && saved
    {
      if pending != [] {
        ShowPage();
      }
      saved := true;
    }
  }
}
