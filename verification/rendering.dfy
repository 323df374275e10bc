/** Rendering through the clip rectangles of a layer. */
module Rendering {
  import opened Wrappers

  /** A bitmap is named by a number. */
  type Bitmap = nat

  datatype Rect = Rect(minX: int, minY: int, maxX: int, maxY: int) {
    predicate Evil() {
      maxX < minX || maxY < minY
    }

    predicate Has(x: int, y: int) {
      minX <= x <= maxX && minY <= y <= maxY
    }

    function Width(): int {
      maxX - minX + 1
    }

    function Height(): int {
      maxY - minY + 1
    }

    /** What fillrect_render answers. */
    function Area(): int {
      Width() * Height()
    }

    function Moved(dx: int, dy: int): Rect {
      Rect(minX + dx, minY + dy, maxX + dx, maxY + dy)
    }
  }

  predicate Overlap(a: Rect, b: Rect) {
    b.minY <= a.maxY && b.maxY >= a.minY && b.minX <= a.maxX && b.maxX >= a.minX
  }

  function Max(a: int, b: int): int {
    if a > b then a else b
  }

  function Min(a: int, b: int): int {
    if a < b then a else b
  }

  function Meet(a: Rect, b: Rect): Rect {
    Rect(Max(a.minX, b.minX), Max(a.minY, b.minY), Min(a.maxX, b.maxX), Min(a.maxY, b.maxY))
  }

  // ---------- the clip rectangle of a rastport ----------

  /** A clip rectangle whose right and bottom edges may be given relative to those of an area. */
  datatype RPClip = RPClip(rect: Rect, relRight: bool, relBottom: bool)

  /** GetRPClipRectangleForRect. */
  function ClipRectangleFor(clip: Option<RPClip>, area: Rect): (r: Option<Rect>)
    ensures r.Some? <==> clip.Some?
    ensures r.Some? ==>
              && r.value.minX - area.minX == clip.value.rect.minX && r.value.minY - area.minY == clip.value.rect.minY
              && clip.value.rect.maxX == r.value.maxX - (if clip.value.relRight then area.maxX else area.minX)
              && clip.value.rect.maxY == r.value.maxY - (if clip.value.relBottom then area.maxY else area.minY)
  {
    if clip.None? then None else
      var c := clip.value.rect;
      var right := if clip.value.relRight then c.maxX + (area.maxX - area.minX) else c.maxX;
      var bottom := if clip.value.relBottom then c.maxY + (area.maxY - area.minY) else c.maxY;
      Some(Rect(c.minX + area.minX, c.minY + area.minY, right + area.minX, bottom + area.minY))
  }

  /** GetRPClipRectangleForBitMap: without a clip rectangle the whole bitmap is one. */
  function ClipRectangleForBitmap(clip: Option<RPClip>, width: nat, height: nat): (r: Option<Rect>)
    ensures r.Some?
    ensures clip.None? ==> r.value.minX == r.value.minY == 0 && r.value.Width() == width && r.value.Height() == height
    ensures clip.Some? ==>
              && r.value.minX == clip.value.rect.minX && r.value.minY == clip.value.rect.minY
              && r.value.maxX == clip.value.rect.maxX + (if clip.value.relRight then width - 1 else 0)
              && r.value.maxY == clip.value.rect.maxY + (if clip.value.relBottom then height - 1 else 0)
  {
    var whole := Rect(0, 0, width - 1, height - 1);
    var r := ClipRectangleFor(clip, whole);
    if r.None? then Some(whole) else r
  }

  // ---------- what is drawn ----------

  /** A piece of a layer; obscured ones (lobs set) have a bitmap of their own when the layer keeps them. */
  datatype ClipRect = ClipRect(bounds: Rect, obscured: bool, bitmap: Bitmap)

  datatype Layer = Layer(bounds: Rect, scrollX: int, scrollY: int, simple: bool, super: bool, clips: seq<ClipRect>)

  datatype RastPort = RastPort(bm: Bitmap, width: nat, height: nat, clip: Option<RPClip>, layer: Option<Layer>)

  /** One call of the render function: the bitmap, the rectangle in it, and the source position of its
      top left pixel; curbm is the bitmap that the special info names. */
  datatype Call = Call(bm: Bitmap, rect: Rect, srcX: int, srcY: int, curbm: Bitmap) {
    predicate Hits(b: Bitmap, x: int, y: int) {
      bm == b && rect.Has(x, y)
    }

    /** Where the pixel drawn at x, y comes from. */
    function Source(x: int, y: int): (int, int) {
      (srcX + x - rect.minX, srcY + y - rect.minY)
    }
  }

  /** A request in screen coordinates.  A rastport without a layer is one visible piece. */
  datatype Job = Job(bm: Bitmap, clips: seq<ClipRect>, hiddenToo: bool, target: Rect, clip: Option<Rect>,
                     srcX: int, srcY: int, available: set<Bitmap>, align: int -> int, special: bool, curbm: Bitmap)
  {
    function BitmapOf(c: ClipRect): Bitmap {
      if c.obscured then c.bitmap else bm
    }

    /** From screen coordinates to those of the bitmap of the piece. */
    function OffsetX(c: ClipRect): int {
      if c.obscured then align(c.bounds.minX) - c.bounds.minX else 0
    }

    function OffsetY(c: ClipRect): int {
      if c.obscured then -c.bounds.minY else 0
    }

    /** Pieces that can be drawn: visible ones, and hidden ones that are kept in a bitmap. */
    predicate Drawable(c: ClipRect) {
      (!c.obscured || hiddenToo) && BitmapOf(c) in available
    }

    predicate Inside(x: int, y: int) {
      clip.Some? ==> clip.value.Has(x, y)
    }

    /** The screen pixel x, y is to be drawn, and piece c shows it. */
    predicate Wanted(c: ClipRect, x: int, y: int) {
      Drawable(c) && c.bounds.Has(x, y) && target.Has(x, y) && Inside(x, y)
    }

    function Piece(c: ClipRect): Option<Rect> {
      if !Overlap(c.bounds, target) then None
      else if clip.None? then Some(Meet(c.bounds, target))
      else if Overlap(clip.value, Meet(c.bounds, target)) then Some(Meet(clip.value, Meet(c.bounds, target)))
      else None
    }

    function CallFor(c: ClipRect, p: Rect): Call {
      Call(BitmapOf(c), p.Moved(OffsetX(c), OffsetY(c)), srcX + (p.minX - target.minX), srcY + (p.minY - target.minY),
           if special then BitmapOf(c) else curbm)
    }

    function CallsFor(c: ClipRect): seq<Call> {
      if Piece(c).Some? && Drawable(c) then [CallFor(c, Piece(c).value)] else []
    }

    /** The calls for the first n pieces. */
    function Calls(n: nat): seq<Call>
      requires n <= |clips|
    {
      if n == 0 then [] else Calls(n - 1) + CallsFor(clips[n - 1])
    }

    /** No two pieces show the same pixel, and hidden pieces that are kept have bitmaps of their own. */
    ghost predicate Apart() {
      && (forall i, j, x, y :: 0 <= i < j < |clips| && clips[i].bounds.Has(x, y) ==> !clips[j].bounds.Has(x, y))
      && (forall i :: hiddenToo && 0 <= i < |clips| && clips[i].obscured ==> clips[i].bitmap != bm)
      && (forall i, j :: hiddenToo && 0 <= i < j < |clips| && clips[i].obscured && clips[j].obscured ==>
                           clips[i].bitmap != clips[j].bitmap)
    }
  }

  function Areas(calls: seq<Call>): int {
    if calls == [] then 0 else Areas(calls[..|calls| - 1]) + calls[|calls| - 1].rect.Area()
  }

  function HitCount(calls: seq<Call>, b: Bitmap, x: int, y: int): nat {
    if calls == [] then 0 else
      HitCount(calls[..|calls| - 1], b, x, y) + if calls[|calls| - 1].Hits(b, x, y) then 1 else 0
  }

  // ---------- what a request means ----------

  /** The screen point x, y lies in the clip rectangle, whose right and bottom edges count from those of the area
      when they are relative. */
  predicate InClip(clip: RPClip, area: Rect, x: int, y: int) {
    && area.minX + clip.rect.minX <= x <= (if clip.relRight then area.maxX else area.minX) + clip.rect.maxX
    && area.minY + clip.rect.minY <= y <= (if clip.relBottom then area.maxY else area.minY) + clip.rect.maxY
  }

  /** Point x, y of a rastport without a layer may be drawn: it lies in the clip rectangle, or in the bitmap if
      there is none. */
  predicate OpenInBitmap(rp: RastPort, x: int, y: int) {
    if rp.clip.Some? then InClip(rp.clip.value, Rect(0, 0, rp.width - 1, rp.height - 1), x, y)
    else 0 <= x < rp.width && 0 <= y < rp.height
  }

  /** Point x, y of the rastport lies in piece c of its layer and in the clip rectangle. */
  predicate OpenInPiece(rp: RastPort, l: Layer, c: ClipRect, x: int, y: int) {
    var sx, sy := x + l.bounds.minX - l.scrollX, y + l.bounds.minY - l.scrollY;
    && c.bounds.minX <= sx <= c.bounds.maxX && c.bounds.minY <= sy <= c.bounds.maxY
    && (rp.clip.Some? ==> InClip(rp.clip.value, l.bounds, sx, sy))
  }

  /** Piece c can be drawn: it is visible, or the layer keeps it in a bitmap, and that bitmap is available. */
  predicate CanDraw(rp: RastPort, l: Layer, c: ClipRect, available: set<Bitmap>) {
    if c.obscured then !l.simple && !l.super && c.bitmap in available else rp.bm in available
  }

  /** Point x, y of the rastport is kept at dx, dy of bitmap b when it lies in piece c. */
  predicate IsPlace(rp: RastPort, l: Layer, c: ClipRect, align: int -> int, x: int, y: int, b: Bitmap, dx: int,
                    dy: int)
  {
    var sx, sy := x + l.bounds.minX - l.scrollX, y + l.bounds.minY - l.scrollY;
    if c.obscured then b == c.bitmap && dx == sx - c.bounds.minX + align(c.bounds.minX) && dy == sy - c.bounds.minY
    else b == rp.bm && dx == sx && dy == sy
  }

  /** One call draws x, y of bitmap b, and from the given source position. */
  ghost predicate DrawnOnce(calls: seq<Call>, b: Bitmap, x: int, y: int, source: (int, int)) {
    HitCount(calls, b, x, y) == 1 && AllFrom(calls, b, x, y, source)
  }

  /** No two pieces of the layer share a point, and hidden pieces that are kept have bitmaps of their own. */
  ghost predicate PiecesApart(rp: RastPort, l: Layer) {
    && (forall i, j, x, y :: 0 <= i < j < |l.clips| && l.clips[i].bounds.Has(x, y) ==> !l.clips[j].bounds.Has(x, y))
    && (!l.simple && !l.super ==>
        && (forall i :: 0 <= i < |l.clips| && l.clips[i].obscured ==> l.clips[i].bitmap != rp.bm)
        && (forall i, j :: 0 <= i < j < |l.clips| && l.clips[i].obscured && l.clips[j].obscured ==>
                             l.clips[i].bitmap != l.clips[j].bitmap))
  }

  /** A request on a rastport without a layer draws each point of the rectangle that may be drawn once, where it
      is, and nothing else. */
  ghost predicate RendersBitmap(calls: seq<Call>, rp: RastPort, s: (int, int), rr: Rect, available: set<Bitmap>) {
    && (forall x, y :: rr.Has(x, y) && OpenInBitmap(rp, x, y) && rp.bm in available ==>
        DrawnOnce(calls, rp.bm, x, y, (s.0 + x - rr.minX, s.1 + y - rr.minY)))
    && (forall b, x, y :: HitCount(calls, b, x, y) > 0 ==>
        b == rp.bm && rr.Has(x, y) && OpenInBitmap(rp, x, y))
  }

  /** A request on a rastport with a layer draws each point of the rectangle once in the piece where it lies, if
      that can be drawn, from the source position with the same offset, and nothing else. */
  ghost predicate RendersLayer(calls: seq<Call>, rp: RastPort, l: Layer, s: (int, int), rr: Rect,
                               available: set<Bitmap>, align: int -> int) {
    && (PiecesApart(rp, l) ==>
        forall c, x, y, b, dx, dy ::
          c in l.clips && rr.Has(x, y) && OpenInPiece(rp, l, c, x, y) && CanDraw(rp, l, c, available) &&
          IsPlace(rp, l, c, align, x, y, b, dx, dy) ==>
            DrawnOnce(calls, b, dx, dy, (s.0 + x - rr.minX, s.1 + y - rr.minY)))
    && (forall b, dx, dy :: HitCount(calls, b, dx, dy) > 0 ==>
        exists c, x, y ::
          c in l.clips && rr.Has(x, y) && OpenInPiece(rp, l, c, x, y) &&
          CanDraw(rp, l, c, available) && IsPlace(rp, l, c, align, x, y, b, dx, dy))
  }

  ghost predicate Renders(calls: seq<Call>, rp: RastPort, src: Option<(int, int)>, rr: Rect, available: set<Bitmap>,
                          align: int -> int) {
    var s := if src.Some? then src.value else (0, 0);
    match rp.layer
    case None => RendersBitmap(calls, rp, s, rr, available)
    case Some(l) => RendersLayer(calls, rp, l, s, rr, available, align)
  }

  // ---------- the program ----------

  /** The bitmap drivers, with the calls made so far; the pixels come from a filled rectangle. */
  class Drivers {
    const available: set<Bitmap>
    var calls: seq<Call>
    /** The bitmap named in the special info of the render function. */
    var curbm: Bitmap

    /** CallRenderFunc with fillrect_render. */
    method CallRenderFunc(srcX: int, srcY: int, bm: Bitmap, rect: Rect) returns (pixels: int)
      modifies this`calls
      ensures calls == old(calls) + if bm in available then [Call(bm, rect, srcX, srcY, curbm)] else []
      ensures pixels == if bm in available then rect.Area() else 0
    {
      if bm !in available {
        return 0;
      }
      calls := calls + [Call(bm, rect, srcX, srcY, curbm)];
      pixels := rect.Area();
    }

    /** The job that a rastport makes of a request. */
    function JobOf(rp: RastPort, src: Option<(int, int)>, rr: Rect, align: int -> int, special: bool): Job
      reads this`curbm
    {
      var s := if src.Some? then src.value else (0, 0);
      match rp.layer
      case None =>
        Job(rp.bm, [ClipRect(rr, false, rp.bm)], false, rr, ClipRectangleForBitmap(rp.clip, rp.width, rp.height),
            s.0, s.1, available, align, special, curbm)
      case Some(l) =>
        Job(rp.bm, l.clips, !l.simple && !l.super, rr.Moved(l.bounds.minX - l.scrollX, l.bounds.minY - l.scrollY),
            ClipRectangleFor(rp.clip, l.bounds), s.0, s.1, available, align, special, curbm)
    }

    /** The job stands for what the request means. */
    lemma RequestMeans(rp: RastPort, src: Option<(int, int)>, rr: Rect, align: int -> int, special: bool)
      ensures var job := JobOf(rp, src, rr, align, special);
        Renders(job.Calls(|job.clips|), rp, src, rr, available, align)
    {
      var job := JobOf(rp, src, rr, align, special);
      hide Job.Calls, HitCount, AllFrom;
      match rp.layer
      case None =>
        BitmapMeans(job, rp, if src.Some? then src.value else (0, 0), rr);
      case Some(l) =>
        LayerMeans(job, rp, l, if src.Some? then src.value else (0, 0), rr);
    }

    /** do_render_with_gc. */
    method DoRender(rp: RastPort, src: Option<(int, int)>, rr: Rect, align: int -> int, special: bool)
      returns (pixWritten: int)
      modifies this
      ensures rr.Evil() ==> pixWritten == 0 && calls == old(calls)
      ensures !rr.Evil() ==>
                var job := old(JobOf(rp, src, rr, align, special));
                calls == old(calls) + job.Calls(|job.clips|) && pixWritten == Areas(job.Calls(|job.clips|))
      ensures !rr.Evil() ==>
          old(calls) <= calls && Renders(calls[|old(calls)|..], rp, src, rr, available, align)
      ensures forall k :: |old(calls)| <= k < |calls| ==>
          calls[k].curbm == if special then calls[k].bm else old(curbm)
    {
      hide Rect.Area, Areas, Job.Calls, Job.CallsFor, Meet, Overlap, Renders;
      if rr.maxX < rr.minX || rr.maxY < rr.minY {
        return 0;
      }
      ghost var job := JobOf(rp, src, rr, align, special);
      RequestMeans(rp, src, rr, align, special);
      Named(job, |job.clips|);
      var srcX, srcY := 0, 0;
      if src.Some? {
        srcX, srcY := src.value.0, src.value.1;
      }
      if rp.layer.None? {
        var toRender := rr;
        var clip := ClipRectangleForBitmap(rp.clip, rp.width, rp.height);
        OneVisiblePiece(job);
        if clip.Some? {
          if !Overlap(rr, clip.value) {
            return 0;
          }
          toRender := Meet(rr, clip.value);
        }
        srcX := srcX + (toRender.minX - rr.minX);
        srcY := srcY + (toRender.minY - rr.minY);
        if special {
          curbm := rp.bm;
        }
        pixWritten := CallRenderFunc(srcX, srcY, rp.bm, toRender);
      } else {
        var l := rp.layer.value;
        var clip := ClipRectangleFor(rp.clip, l.bounds);
        var toRender := rr.Moved(l.bounds.minX - l.scrollX, l.bounds.minY - l.scrollY);
        pixWritten := 0;
        NoCalls(job);
        for n := 0 to |l.clips|
          invariant calls == old(calls) + job.Calls(n)
          invariant pixWritten == Areas(job.Calls(n))
          invariant special || curbm == old(curbm)
        {
          CallsMore(job, n);
          var pixels := RenderPiece(l, l.clips[n], rp.bm, toRender, clip, srcX, srcY, align, special, job);
          pixWritten := pixWritten + pixels;
        }
      }
    }

    /** One round of the loop over the cliprects. */
    method RenderPiece(l: Layer, cr: ClipRect, bm: Bitmap, toRender: Rect, clip: Option<Rect>, srcX: int, srcY: int,
                       align: int -> int, special: bool, ghost job: Job)
      returns (pixels: int)
      requires job == Job(bm, l.clips, !l.simple && !l.super, toRender, clip, srcX, srcY, available, align, special,
          job.curbm)
      requires special || curbm == job.curbm
      modifies this
      ensures calls == old(calls) + job.CallsFor(cr)
      ensures pixels == if job.CallsFor(cr) == [] then 0 else job.CallsFor(cr)[0].rect.Area()
      ensures special || curbm == job.curbm
    {
      hide Overlap, Meet, Rect.Area;
      pixels := 0;
      if Overlap(cr.bounds, toRender) {
        var intersect := Meet(cr.bounds, toRender);
        if clip.None? || Overlap(clip.value, intersect) {
          if clip.Some? {
            intersect := Meet(clip.value, intersect);
          }
          var xOffset, yOffset := intersect.minX - toRender.minX, intersect.minY - toRender.minY;
          if !cr.obscured {
            if special {
              curbm := bm;
            }
            pixels := CallRenderFunc(srcX + xOffset, srcY + yOffset, bm, intersect);
          } else {
            if l.simple {
              return;
            } else if l.super {
            } else {
              if special {
                curbm := cr.bitmap;
              }
              intersect := Rect(intersect.minX - cr.bounds.minX + align(cr.bounds.minX),
                                intersect.minY - cr.bounds.minY,
                                intersect.maxX - cr.bounds.minX + align(cr.bounds.minX),
                                intersect.maxY - cr.bounds.minY);
              pixels := CallRenderFunc(srcX + xOffset, srcY + yOffset, cr.bitmap, intersect);
            }
          }
        }
      }
    }
  }

  lemma NoCalls(job: Job)
    ensures job.Calls(0) == [] && Areas([]) == 0
  {
  }

  lemma CallsMore(job: Job, n: nat)
    requires n < |job.clips|
    ensures job.Calls(n + 1) == job.Calls(n) + job.CallsFor(job.clips[n])
    ensures Areas(job.Calls(n + 1))
            == Areas(job.Calls(n)) +
                if job.CallsFor(job.clips[n]) == [] then 0 else job.CallsFor(job.clips[n])[0].rect.Area()
    ensures |job.CallsFor(job.clips[n])| <= 1
  {
    AreasMore(job.Calls(n), job.CallsFor(job.clips[n]));
  }

  lemma AreasMore(s: seq<Call>, t: seq<Call>)
    requires |t| <= 1
    ensures Areas(s + t) == Areas(s) + if t == [] then 0 else t[0].rect.Area()
  {
    if t == [] {
      assert s + t == s;
    } else {
      assert (s + t)[..|s|] == s;
    }
  }

  lemma OneVisiblePiece(job: Job)
    requires job.clips == [ClipRect(job.target, false, job.bm)] && !job.target.Evil() && job.clip.Some?
    ensures var r := Meet(job.target, job.clip.value);
      job.Calls(1) == if Overlap(job.target, job.clip.value) && job.bm in job.available
                      then [Call(job.bm, r, job.srcX + (r.minX - job.target.minX),
                          job.srcY + (r.minY - job.target.minY),
                                 if job.special then job.bm else job.curbm)]
                      else []
    ensures Areas(job.Calls(1)) == if job.Calls(1) == [] then 0 else job.Calls(1)[0].rect.Area()
  {
    hide Rect.Area, Areas, Job.Calls, Overlap, Meet;
    NoCalls(job);
    CallsMore(job, 0);
    MeetSelf(job.target, job.clip.value);
    var r := Meet(job.target, job.clip.value);
    assert r.Moved(0, 0) == r;
  }

  lemma MeetSelf(a: Rect, b: Rect)
    requires !a.Evil()
    ensures Overlap(a, a) && Meet(a, a) == a
    ensures Overlap(a, b) == Overlap(b, a) && Meet(a, b) == Meet(b, a)
  {
  }

  // ---------- every wanted pixel once ----------

  /** The call for a piece draws exactly the wanted pixels of that piece, each from the source origin plus
      its offset in the target. */
  lemma OnePiece(job: Job, c: ClipRect, b: Bitmap, x: int, y: int)
    ensures var p := job.CallsFor(c);
      && |p| <= 1
      && ((p != [] && p[0].Hits(b, x + job.OffsetX(c), y + job.OffsetY(c))) <==>
          (b == job.BitmapOf(c) && job.Wanted(c, x, y)))
      && (p != [] ==> p[0].Source(x + job.OffsetX(c), y + job.OffsetY(c))
                      == (job.srcX + (x - job.target.minX), job.srcY + (y - job.target.minY)))
  {
  }

  /** Piece c has a wanted pixel that is kept at x, y of bitmap b. */
  predicate HitBy(job: Job, c: ClipRect, b: Bitmap, x: int, y: int) {
    b == job.BitmapOf(c) && job.Wanted(c, x - job.OffsetX(c), y - job.OffsetY(c))
  }

  /** The same, seen from the bitmap. */
  lemma OnePieceAt(job: Job, c: ClipRect, b: Bitmap, x: int, y: int)
    ensures |job.CallsFor(c)| <= 1
    ensures job.CallsFor(c) != [] && job.CallsFor(c)[0].Hits(b, x, y) <==> HitBy(job, c, b, x, y)
    ensures job.CallsFor(c) != [] ==>
        job.CallsFor(c)[0].Source(x, y)
        == (job.srcX + (x - job.OffsetX(c) - job.target.minX), job.srcY + (y - job.OffsetY(c) - job.target.minY))
  {
    OnePiece(job, c, b, x - job.OffsetX(c), y - job.OffsetY(c));
  }

  lemma HitMore(job: Job, n: nat, b: Bitmap, x: int, y: int)
    requires n < |job.clips|
    ensures HitCount(job.Calls(n + 1), b, x, y)
            == HitCount(job.Calls(n), b, x, y) + if HitBy(job, job.clips[n], b, x, y) then 1 else 0
  {
    var s, t := job.Calls(n), job.CallsFor(job.clips[n]);
    OnePieceAt(job, job.clips[n], b, x, y);
    CallsMore(job, n);
    hide Job.Calls, Job.CallsFor, HitBy, Call.Hits;
    if t == [] {
      assert s + t == s;
    } else {
      assert (s + t)[..|s|] == s;
    }
  }

  lemma NoHits(job: Job, b: Bitmap, x: int, y: int)
    ensures HitCount(job.Calls(0), b, x, y) == 0
  {
  }

  /** Whatever is drawn at x, y of bitmap b comes from the given source position. */
  ghost predicate AllFrom(calls: seq<Call>, b: Bitmap, x: int, y: int, source: (int, int)) {
    forall i :: 0 <= i < |calls| && calls[i].Hits(b, x, y) ==> calls[i].Source(x, y) == source
  }

  lemma AllFromMore(s: seq<Call>, t: seq<Call>, b: Bitmap, x: int, y: int, source: (int, int))
    requires |t| <= 1 && AllFrom(s, b, x, y, source)
    requires t != [] && t[0].Hits(b, x, y) ==> t[0].Source(x, y) == source
    ensures AllFrom(s + t, b, x, y, source)
  {
  }

  lemma OthersMiss(job: Job, j: nat, k: nat, x: int, y: int)
    requires job.Apart() && j < |job.clips| && k < |job.clips|
    requires job.Wanted(job.clips[k], x, y)
    ensures var c := job.clips[k];
      HitBy(job, job.clips[j], job.BitmapOf(c), x + job.OffsetX(c), y + job.OffsetY(c)) <==> j == k
  {
  }

  /** A wanted pixel is drawn once, when its piece has its turn, and by no other piece. */
  lemma {:induction false} ExactlyOnce(job: Job, n: nat, k: nat, x: int, y: int)
    requires job.Apart()
    requires n <= |job.clips| && k < |job.clips|
    requires job.Wanted(job.clips[k], x, y)
    ensures var c := job.clips[k]; var b := job.BitmapOf(c); var dx := x + job.OffsetX(c); var dy := y + job.OffsetY(c);
      && HitCount(job.Calls(n), b, dx, dy) == (if k < n then 1 else 0)
      && AllFrom(job.Calls(n), b, dx, dy, (job.srcX + (x - job.target.minX), job.srcY + (y - job.target.minY)))
  {
    hide Job.CallsFor, Job.Calls, Job.Wanted, Job.Apart, Job.BitmapOf, Job.OffsetX, Job.OffsetY, Call.Hits,
        Call.Source, AllFrom, Rect.Area, Areas, HitCount, HitBy;
    var c := job.clips[k];
    var b, dx, dy := job.BitmapOf(c), x + job.OffsetX(c), y + job.OffsetY(c);
    var source := (job.srcX + (x - job.target.minX), job.srcY + (y - job.target.minY));
    if n == 0 {
      NoHits(job, b, dx, dy);
      AllFromNone(job, b, dx, dy, source);
    } else {
      ExactlyOnce(job, n - 1, k, x, y);
      HitMore(job, n - 1, b, dx, dy);
      OthersMiss(job, n - 1, k, x, y);
      OnePieceAt(job, job.clips[n - 1], b, dx, dy);
      CallsMore(job, n - 1);
      AllFromMore(job.Calls(n - 1), job.CallsFor(job.clips[n - 1]), b, dx, dy, source);
    }
  }

  lemma AllFromNone(job: Job, b: Bitmap, x: int, y: int, source: (int, int))
    ensures AllFrom(job.Calls(0), b, x, y, source)
  {
  }

  /** Nothing else is drawn. */
  lemma {:induction false} OnlyWanted(job: Job, n: nat, b: Bitmap, dx: int, dy: int)
    requires n <= |job.clips|
    ensures HitCount(job.Calls(n), b, dx, dy) > 0 ==> exists k :: 0 <= k < n && HitBy(job, job.clips[k], b, dx, dy)
  {
    hide Job.Calls, Rect.Area, HitCount, HitBy;
    if n == 0 {
      NoHits(job, b, dx, dy);
    } else {
      OnlyWanted(job, n - 1, b, dx, dy);
      HitMore(job, n - 1, b, dx, dy);
    }
  }

  // ---------- from requests to jobs ----------

  lemma {:induction false} Named(job: Job, n: nat)
    requires n <= |job.clips|
    ensures forall k :: 0 <= k < |job.Calls(n)| ==>
        job.Calls(n)[k].curbm == if job.special then job.Calls(n)[k].bm else job.curbm
  {
    if n > 0 {
      Named(job, n - 1);
    }
  }

  lemma BitmapMeans(job: Job, rp: RastPort, s: (int, int), rr: Rect)
    requires job.bm == rp.bm && job.clips == [ClipRect(rr, false, rp.bm)] && !job.hiddenToo && job.target == rr
    requires job.clip == ClipRectangleForBitmap(rp.clip, rp.width, rp.height) && job.srcX == s.0 && job.srcY == s.1
    ensures RendersBitmap(job.Calls(1), rp, s, rr, job.available)
  {
    hide Job.Calls, HitCount, AllFrom;
    forall x, y
      ensures job.Inside(x, y) <==> OpenInBitmap(rp, x, y)
    {
    }
    hide Job.Inside, OpenInBitmap;
    forall x, y | rr.Has(x, y) && OpenInBitmap(rp, x, y) && rp.bm in job.available
      ensures DrawnOnce(job.Calls(1), rp.bm, x, y, (s.0 + x - rr.minX, s.1 + y - rr.minY))
    {
      ExactlyOnce(job, 1, 0, x, y);
    }
    forall b, x, y | HitCount(job.Calls(1), b, x, y) > 0
      ensures b == rp.bm && rr.Has(x, y) && OpenInBitmap(rp, x, y)
    {
      OnlyWanted(job, 1, b, x, y);
    }
  }

  /** The screen point of a point of the rastport is wanted exactly when it is open in the piece and the piece can
      be drawn. */
  lemma WantedMeans(job: Job, rp: RastPort, l: Layer, s: (int, int), rr: Rect, c: ClipRect, x: int, y: int)
    requires job.bm == rp.bm && job.clips == l.clips && job.hiddenToo == (!l.simple && !l.super)
    requires job.target == rr.Moved(l.bounds.minX - l.scrollX, l.bounds.minY - l.scrollY)
    requires job.clip == ClipRectangleFor(rp.clip, l.bounds) && job.srcX == s.0 && job.srcY == s.1
    ensures job.Wanted(c, x + l.bounds.minX - l.scrollX, y + l.bounds.minY - l.scrollY) <==>
              rr.Has(x, y) && OpenInPiece(rp, l, c, x, y) && CanDraw(rp, l, c, job.available)
    ensures forall b, dx, dy :: IsPlace(rp, l, c, job.align, x, y, b, dx, dy) <==>
              && b == job.BitmapOf(c) && dx == x + l.bounds.minX - l.scrollX + job.OffsetX(c)
              && dy == y + l.bounds.minY - l.scrollY + job.OffsetY(c)
  {
  }

  lemma LayerMeans(job: Job, rp: RastPort, l: Layer, s: (int, int), rr: Rect)
    requires job.bm == rp.bm && job.clips == l.clips && job.hiddenToo == (!l.simple && !l.super)
    requires job.target == rr.Moved(l.bounds.minX - l.scrollX, l.bounds.minY - l.scrollY)
    requires job.clip == ClipRectangleFor(rp.clip, l.bounds) && job.srcX == s.0 && job.srcY == s.1
    ensures RendersLayer(job.Calls(|l.clips|), rp, l, s, rr, job.available, job.align)
  {
    LayerPoints(job, rp, l, s, rr);
    LayerHits(job, rp, l, s, rr);
  }

  lemma LayerPoints(job: Job, rp: RastPort, l: Layer, s: (int, int), rr: Rect)
    requires job.bm == rp.bm && job.clips == l.clips && job.hiddenToo == (!l.simple && !l.super)
    requires job.target == rr.Moved(l.bounds.minX - l.scrollX, l.bounds.minY - l.scrollY)
    requires job.clip == ClipRectangleFor(rp.clip, l.bounds) && job.srcX == s.0 && job.srcY == s.1
    ensures PiecesApart(rp, l) ==>
        forall c, x, y, b, dx, dy ::
          c in l.clips && rr.Has(x, y) && OpenInPiece(rp, l, c, x, y) && CanDraw(rp, l, c, job.available) &&
          IsPlace(rp, l, c, job.align, x, y, b, dx, dy) ==>
            DrawnOnce(job.Calls(|l.clips|), b, dx, dy, (s.0 + x - rr.minX, s.1 + y - rr.minY))
  {
    hide PiecesApart, Job.Calls, DrawnOnce, OpenInPiece, CanDraw, IsPlace, ClipRectangleFor, Rect.Has;
    if PiecesApart(rp, l) {
      forall c, x, y, b, dx, dy |
        c in l.clips && rr.Has(x, y) && OpenInPiece(rp, l, c, x, y) && CanDraw(rp, l, c, job.available) &&
        IsPlace(rp, l, c, job.align, x, y, b, dx, dy)
        ensures DrawnOnce(job.Calls(|l.clips|), b, dx, dy, (s.0 + x - rr.minX, s.1 + y - rr.minY))
      {
        LayerPoint(job, rp, l, s, rr, c, x, y, b, dx, dy);
      }
    }
  }

  lemma ApartMeans(job: Job, rp: RastPort, l: Layer)
    requires job.bm == rp.bm && job.clips == l.clips && job.hiddenToo == (!l.simple && !l.super) && PiecesApart(rp, l)
    ensures job.Apart()
  {
  }

  lemma LayerPoint(job: Job, rp: RastPort, l: Layer, s: (int, int), rr: Rect, c: ClipRect, x: int, y: int, b: Bitmap,
                   dx: int, dy: int)
    requires job.bm == rp.bm && job.clips == l.clips && job.hiddenToo == (!l.simple && !l.super)
    requires job.target == rr.Moved(l.bounds.minX - l.scrollX, l.bounds.minY - l.scrollY)
    requires job.clip == ClipRectangleFor(rp.clip, l.bounds) && job.srcX == s.0 && job.srcY == s.1
    requires PiecesApart(rp, l) && c in l.clips && rr.Has(x, y) && OpenInPiece(rp, l, c, x, y)
    requires CanDraw(rp, l, c, job.available) && IsPlace(rp, l, c, job.align, x, y, b, dx, dy)
    ensures DrawnOnce(job.Calls(|l.clips|), b, dx, dy, (s.0 + x - rr.minX, s.1 + y - rr.minY))
  {
    hide PiecesApart, Job.Apart, Job.Calls, HitCount, AllFrom, OpenInPiece, CanDraw, IsPlace, Job.Wanted,
        ClipRectangleFor, Job.BitmapOf, Job.OffsetX, Job.OffsetY, Rect.Has;
    ApartMeans(job, rp, l);
    var k :| 0 <= k < |l.clips| && l.clips[k] == c;
    WantedMeans(job, rp, l, s, rr, c, x, y);
    ExactlyOnce(job, |l.clips|, k, x + l.bounds.minX - l.scrollX, y + l.bounds.minY - l.scrollY);
  }

  lemma LayerHits(job: Job, rp: RastPort, l: Layer, s: (int, int), rr: Rect)
    requires job.bm == rp.bm && job.clips == l.clips && job.hiddenToo == (!l.simple && !l.super)
    requires job.target == rr.Moved(l.bounds.minX - l.scrollX, l.bounds.minY - l.scrollY)
    requires job.clip == ClipRectangleFor(rp.clip, l.bounds) && job.srcX == s.0 && job.srcY == s.1
    ensures forall b, dx, dy :: HitCount(job.Calls(|l.clips|), b, dx, dy) > 0 ==>
        exists c, x, y ::
          c in l.clips && rr.Has(x, y) && OpenInPiece(rp, l, c, x, y) &&
          CanDraw(rp, l, c, job.available) && IsPlace(rp, l, c, job.align, x, y, b, dx, dy)
  {
    hide Job.Calls, HitCount, OpenInPiece, CanDraw, IsPlace, Job.Wanted, ClipRectangleFor, Job.BitmapOf, Job.OffsetX,
        Job.OffsetY, Rect.Has;
    forall b, dx, dy | HitCount(job.Calls(|l.clips|), b, dx, dy) > 0
      ensures exists c, x, y ::
          c in l.clips && rr.Has(x, y) && OpenInPiece(rp, l, c, x, y) &&
          CanDraw(rp, l, c, job.available) && IsPlace(rp, l, c, job.align, x, y, b, dx, dy)
    {
      OnlyWanted(job, |l.clips|, b, dx, dy);
      var k :| 0 <= k < |l.clips| && HitBy(job, job.clips[k], b, dx, dy);
      var c := l.clips[k];
      var x := dx - job.OffsetX(c) - l.bounds.minX + l.scrollX;
      var y := dy - job.OffsetY(c) - l.bounds.minY + l.scrollY;
      WantedMeans(job, rp, l, s, rr, c, x, y);
      assert c in l.clips && IsPlace(rp, l, c, job.align, x, y, b, dx, dy);
    }
  }

  // ---------- the number of pixels ----------

  ghost function Pixels(r: Rect): set<(int, int)> {
    set x, y | r.minX <= x <= r.maxX && r.minY <= y <= r.maxY :: (x, y)
  }

  lemma {:induction false} PixelCount(r: Rect)
    requires !r.Evil()
    ensures |Pixels(r)| == r.Area()
    decreases r.maxX - r.minX
  {
    hide Rect.Area;
    var column := Rect(r.maxX, r.minY, r.maxX, r.maxY);
    ColumnCount(column);
    AreaByColumn(r);
    if r.minX == r.maxX {
      assert r == column;
    } else {
      var rest := r.(maxX := r.maxX - 1);
      PixelCount(rest);
      assert Pixels(r) == Pixels(rest) + Pixels(column);
    }
  }

  lemma AreaByColumn(r: Rect)
    ensures r.Area() == if r.minX == r.maxX then r.Height() else r.(maxX := r.maxX - 1).Area() + r.Height()
  {
    assert r.Width() * r.Height() == (r.Width() - 1) * r.Height() + r.Height();
  }

  lemma {:induction false} ColumnCount(r: Rect)
    requires !r.Evil() && r.minX == r.maxX
    ensures |Pixels(r)| == r.Height()
    decreases r.maxY - r.minY
  {
    var last := (r.minX, r.maxY);
    if r.minY == r.maxY {
      assert Pixels(r) == {last};
    } else {
      var rest := r.(maxY := r.maxY - 1);
      ColumnCount(rest);
      assert Pixels(r) == Pixels(rest) + {last};
    }
  }

  /** The screen pixels wanted in one piece. */
  ghost function WantedIn(job: Job, c: ClipRect): set<(int, int)> {
    set p | p in Pixels(c.bounds) && job.Wanted(c, p.0, p.1)
  }

  /** The screen pixels wanted in the first n pieces. */
  ghost function WantedPixels(job: Job, n: nat): (s: set<(int, int)>)
    requires n <= |job.clips|
    ensures forall x, y :: (x, y) in s <==> exists k :: 0 <= k < n && job.Wanted(job.clips[k], x, y)
  {
    if n == 0 then {} else
      var c := job.clips[n - 1];
      WantedPixels(job, n - 1) + WantedIn(job, c)
  }

  /** A clip rectangle turned inside out by more than an empty one. */
  predicate Inverted(clip: Option<Rect>) {
    clip.Some? && clip.value.Evil() && clip.value.Width() != 0 && clip.value.Height() != 0
  }

  predicate NoEvilPiece(job: Job) {
    !job.target.Evil() && forall k :: 0 <= k < |job.clips| ==> !job.clips[k].bounds.Evil()
  }

  /** No piece that can be drawn overlaps the target and the clip rectangle. */
  predicate NothingOverlaps(job: Job) {
    forall k :: 0 <= k < |job.clips| && job.Drawable(job.clips[k]) ==> job.Piece(job.clips[k]).None?
  }

  /** The number answered is the number of wanted pixels exactly when the clip rectangle is not inverted,
      or nothing overlaps it. */
  lemma CountExact(job: Job)
    requires job.Apart() && NoEvilPiece(job)
    ensures Areas(job.Calls(|job.clips|)) == |WantedPixels(job, |job.clips|)|
       <==> !Inverted(job.clip) || NothingOverlaps(job)
  {
    NothingCalled(job, |job.clips|);
    if job.clip.None? || !job.clip.value.Evil() {
      CountRight(job, |job.clips|);
    } else {
      CountWrong(job, |job.clips|);
    }
  }

  lemma {:induction false} NothingCalled(job: Job, n: nat)
    requires n <= |job.clips|
    ensures job.Calls(n) == [] <==>
              forall k :: 0 <= k < n && job.Drawable(job.clips[k]) ==> job.Piece(job.clips[k]).None?
  {
    hide Job.CallsFor, Job.Drawable, Job.Piece;
    if n > 0 {
      var c := job.clips[n - 1];
      NothingCalled(job, n - 1);
      CallsForNone(job, c);
      assert job.Calls(n) == [] <==> job.Calls(n - 1) == [] && job.CallsFor(c) == [];
    }
  }

  lemma CallsForNone(job: Job, c: ClipRect)
    ensures job.CallsFor(c) == [] <==> (job.Drawable(c) ==> job.Piece(c).None?)
  {
  }

  lemma {:induction false} CountRight(job: Job, n: nat)
    requires job.Apart() && NoEvilPiece(job) && (job.clip.None? || !job.clip.value.Evil())
    requires n <= |job.clips|
    ensures Areas(job.Calls(n)) == |WantedPixels(job, n)|
  {
    hide Job.CallsFor, Job.Calls, Job.Wanted, Job.Apart, Areas, Rect.Area, Rect.Evil, WantedPixels;
    NoCalls(job);
    if n == 0 {
      NothingWanted(job);
    } else {
      var c := job.clips[n - 1];
      CountRight(job, n - 1);
      CallsMore(job, n - 1);
      AreasMore(job.Calls(n - 1), job.CallsFor(c));
      PieceCount(job, c);
      WantedMore(job, n - 1);
    }
  }

  lemma NothingWanted(job: Job)
    ensures |WantedPixels(job, 0)| == 0
  {
  }

  /** The pixels of a piece are wanted in no other one. */
  lemma WantedMore(job: Job, n: nat)
    requires job.Apart() && n < |job.clips|
    ensures |WantedPixels(job, n + 1)| == |WantedPixels(job, n)| + |WantedIn(job, job.clips[n])|
  {
    var c := job.clips[n];
    forall p | p in WantedPixels(job, n)
      ensures p !in WantedIn(job, c)
    {
      var k :| 0 <= k < n && job.Wanted(job.clips[k], p.0, p.1);
      OneShows(job, k, n, p.0, p.1);
    }
    WantedSplit(job, n);
    hide WantedPixels, WantedIn, Job.Apart, Job.Wanted;
    DisjointCount(WantedPixels(job, n), WantedIn(job, c));
  }

  lemma OneShows(job: Job, k: nat, n: nat, x: int, y: int)
    requires job.Apart() && k < n < |job.clips| && job.Wanted(job.clips[k], x, y)
    ensures !job.Wanted(job.clips[n], x, y)
  {
  }

  lemma WantedSplit(job: Job, n: nat)
    requires n < |job.clips|
    ensures WantedPixels(job, n + 1) == WantedPixels(job, n) + WantedIn(job, job.clips[n])
  {
    hide Job.Wanted, Pixels;
  }

  lemma DisjointCount<T>(a: set<T>, b: set<T>)
    requires a !! b
    ensures |a + b| == |a| + |b|
  {
  }

  lemma PieceCount(job: Job, c: ClipRect)
    requires !c.bounds.Evil() && !job.target.Evil() && (job.clip.None? || !job.clip.value.Evil())
    ensures |WantedIn(job, c)| == if job.CallsFor(c) == [] then 0 else job.CallsFor(c)[0].rect.Area()
  {
    if job.CallsFor(c) == [] {
      NoneWanted(job, c);
    } else {
      CallArea(job, c);
      PieceNotEvil(job, c);
      PieceShown(job, c);
      hide Rect.Area, Job.CallsFor, Job.Piece;
      PixelCount(job.Piece(c).value);
    }
  }

  lemma NoneWanted(job: Job, c: ClipRect)
    requires !c.bounds.Evil() && !job.target.Evil() && (job.clip.None? || !job.clip.value.Evil())
    requires job.CallsFor(c) == []
    ensures WantedIn(job, c) == {}
  {
    hide Rect.Area, Pixels;
  }

  lemma CallArea(job: Job, c: ClipRect)
    requires job.CallsFor(c) != []
    ensures job.Drawable(c) && job.Piece(c).Some? && job.CallsFor(c)[0].rect.Area() == job.Piece(c).value.Area()
  {
  }

  lemma PieceNotEvil(job: Job, c: ClipRect)
    requires !c.bounds.Evil() && !job.target.Evil() && (job.clip.None? || !job.clip.value.Evil())
    requires job.Piece(c).Some?
    ensures !job.Piece(c).value.Evil()
  {
  }

  lemma PieceShown(job: Job, c: ClipRect)
    requires job.Drawable(c) && job.Piece(c).Some?
    ensures WantedIn(job, c) == Pixels(job.Piece(c).value)
  {
    hide Rect.Area, Job.Drawable;
  }

  /** The sign that the area of a nonempty call has when the clip rectangle is evil. */
  predicate SignedBy(clip: Rect, a: int) {
    if clip.Width() == 0 || clip.Height() == 0 then a == 0
    else if clip.Width() < 0 && clip.Height() < 0 then a > 0
    else a < 0
  }

  /** With an evil clip rectangle nothing is wanted, and all pieces are counted with the same sign. */
  lemma {:induction false} CountWrong(job: Job, n: nat)
    requires NoEvilPiece(job) && job.clip.Some? && job.clip.value.Evil()
    requires n <= |job.clips|
    ensures WantedPixels(job, n) == {}
    ensures if job.Calls(n) == [] then Areas(job.Calls(n)) == 0 else SignedBy(job.clip.value, Areas(job.Calls(n)))
  {
    hide Rect.Area, Job.CallsFor, Areas;
    NoCalls(job);
    if n > 0 {
      CountWrong(job, n - 1);
      CallsMore(job, n - 1);
      EvilCall(job, job.clips[n - 1]);
    }
  }

  lemma EvilCall(job: Job, c: ClipRect)
    requires !job.target.Evil() && !c.bounds.Evil() && job.clip.Some? && job.clip.value.Evil()
    ensures job.CallsFor(c) != [] ==> SignedBy(job.clip.value, job.CallsFor(c)[0].rect.Area())
  {
    if job.CallsFor(c) != [] {
      EvilPiece(c.bounds, job.target, job.clip.value);
    }
  }

  lemma EvilPiece(a: Rect, b: Rect, clip: Rect)
    requires !a.Evil() && !b.Evil() && clip.Evil()
    requires Overlap(a, b) && Overlap(clip, Meet(a, b))
    ensures SignedBy(clip, Meet(clip, Meet(a, b)).Area())
  {
    var r := Meet(clip, Meet(a, b));
    SignOfProduct(r.Width(), r.Height());
  }

  lemma SignOfProduct(w: int, h: int)
    ensures w == 0 || h == 0 ==> w * h == 0
    ensures (w > 0 && h > 0) || (w < 0 && h < 0) ==> w * h > 0
    ensures (w > 0 && h < 0) || (w < 0 && h > 0) ==> w * h < 0
  {
  }

  /** A clip rectangle from column 5 to the fourth column left of the right edge, in a layer 8 pixels wide:
      nothing is to be drawn in its ten rows, but the answer is -10. */
  lemma InvertedClip(job: Job)
    requires job.target == Rect(0, 0, 7, 9) && job.clips == [ClipRect(job.target, false, job.bm)]
    requires job.bm in job.available
    requires job.clip == Some(Rect(5, 0, 3, 9))
    ensures ClipRectangleFor(Some(RPClip(Rect(5, 0, -4, 0), true, true)), Rect(0, 0, 7, 9)) == Some(Rect(5, 0, 3, 9))
    ensures Areas(job.Calls(1)) == -10 && WantedPixels(job, 1) == {}
  {
    hide Areas, Job.Calls, Job.CallsFor, Job.Wanted, SignedBy, WantedPixels, NoEvilPiece;
    hide Rect.Area, Rect.Evil, Overlap, Meet;
    InsideOut();
    OneVisiblePiece(job);
    NoEvilVisiblePiece(job);
    CountWrong(job, 1);
  }

  lemma InsideOut()
    ensures var t, clip := Rect(0, 0, 7, 9), Rect(5, 0, 3, 9);
      !t.Evil() && clip.Evil() && Overlap(t, clip) && Meet(t, clip) == clip && clip.Area() == -10
  {
  }

  lemma NoEvilVisiblePiece(job: Job)
    requires job.clips == [ClipRect(job.target, false, job.bm)] && !job.target.Evil()
    ensures NoEvilPiece(job)
  {
  }
}
