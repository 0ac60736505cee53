/**
 * The decoded-picture buffer (de265_image): three 8-bit sample planes with
 * 16-byte aligned row pitches, per-picture decoding metadata arrays, picture
 * order values and the pending-task counter.
 */
module Picture {
  import opened Util
  import opened BlockCost
  import opened PlaneOps

  /** Chroma formats, in the order of their numeric values (mono is 0). */
  datatype ChromaFormat = Mono | C420 | C422 | C444

  /** Reference marking of a picture; the zero value is UnusedForReference. */
  datatype PictureState = UnusedForReference | ShortTermForReference | LongTermForReference

  /** Coding-block and prediction-block metadata entries; their contents are not modelled. */
  datatype CbRefInfo = CbRefInfo
  datatype PbRefInfo = PbRefInfo

  /** The sequence parameter set values that size the metadata arrays. */
  datatype SeqParams = SeqParams(
    picWidthInMinPUs: int, picHeightInMinPUs: int, picSizeInMinCbsY: int,
    picWidthInMinCbsY: int, picHeightInMinCbsY: int, log2MinCbSizeY: int)

  predicate SeqParamsOk(sps: SeqParams)
  {
    && sps.picWidthInMinPUs >= 0 && sps.picHeightInMinPUs >= 0 && sps.picSizeInMinCbsY >= 0
    && sps.picWidthInMinCbsY >= 0 && sps.picHeightInMinCbsY >= 0 && sps.log2MinCbSizeY >= 2
  }

  /** Row pitches are multiples of this many bytes. */
  const Alignment: int := 16

  /** The border around each plane; the allocator always uses 0. */
  const Border: int := 0

  /** (n + 2*border + alignment - 1) / alignment * alignment with border 0: n rounded up to a multiple of 16. */
  function AlignUp(n: int): (r: int)
    requires n >= 0
    ensures r % Alignment == 0 && n <= r < n + Alignment
  {
    (n + 2 * Border + Alignment - 1) / Alignment * Alignment
  }

  /** Horizontal and vertical chroma subsampling factors (Table 6-1 of ITU-T H.265). */
  function SubWidthC(c: ChromaFormat): int
  {
    match c
    case C420 => 2
    case C422 => 2
    case _ => 1
  }

  function SubHeightC(c: ChromaFormat): int
  {
    match c
    case C420 => 2
    case _ => 1
  }

  /**
   * Chroma plane size as de265_alloc_image computes it: mono and 4:4:4 keep
   * the luma size, 4:2:0 halves both sides rounding up, and 4:2:2 keeps the
   * width and halves the height rounding up.
   */
  function ChromaSizeAsWritten(w: int, h: int, c: ChromaFormat): (size: (int, int))
    ensures c == Mono || c == C444 ==> size == (w, h)
    ensures c == C420 ==> w <= 2 * size.0 <= w + 1 && h <= 2 * size.1 <= h + 1
    ensures c == C422 ==> size.0 == w && h <= 2 * size.1 <= h + 1
  {
    var cw := if c == C420 then (w + 1) / 2 else w;
    var ch := if c == C420 || c == C422 then (h + 1) / 2 else h;
    (cw, ch)
  }

  /**
   * Chroma plane size of a w×h picture: the least size whose subsampled grid
   * covers the luma plane in each direction (4:2:2 halves the width).
   */
  function ChromaSize(w: int, h: int, c: ChromaFormat): (size: (int, int))
    requires w >= 0 && h >= 0
    ensures size.0 >= 0 && size.1 >= 0
    ensures size.0 * SubWidthC(c) >= w && (size.0 - 1) * SubWidthC(c) < w
    ensures size.1 * SubHeightC(c) >= h && (size.1 - 1) * SubHeightC(c) < h
  {
    var cw := if c == C420 || c == C422 then (w + 1) / 2 else w;
    var ch := if c == C420 then (h + 1) / 2 else h;
    (cw, ch)
  }

  /** The allocator's chroma size is the covering size for every format but 4:2:2. */
  lemma ChromaSizeAsWrittenAgrees(w: int, h: int, c: ChromaFormat)
    requires w >= 0 && h >= 0 && c != C422
    ensures ChromaSizeAsWritten(w, h, c) == ChromaSize(w, h, c)
  {
  }

  /** For an 8×8 4:2:2 picture the allocator gives an 8×4 chroma plane, which leaves luma rows 4..7 without chroma. */
  lemma ChromaSizeAsWrittenWrongFor422()
    ensures ChromaSizeAsWritten(8, 8, C422) == (8, 4)
    ensures ChromaSize(8, 8, C422) == (4, 8)
    ensures ChromaSizeAsWritten(8, 8, C422).1 * SubHeightC(C422) < 8
  {
  }

  function Pow2(n: nat): (r: nat)
    ensures r >= 1
  {
    if n == 0 then 1 else 2 * Pow2(n - 1)
  }

  /** PicWidthInMinCbsY << (Log2MinCbSizeY - 2): the picture width in 4×4 prediction units. */
  function PuWidth(sps: SeqParams): (n: int)
    requires SeqParamsOk(sps)
    ensures n >= 0 && (sps.picWidthInMinCbsY > 0 ==> n >= sps.picWidthInMinCbsY)
  {
    sps.picWidthInMinCbsY * Pow2(sps.log2MinCbSizeY - 2)
  }

  function PuHeight(sps: SeqParams): (n: int)
    requires SeqParamsOk(sps)
    ensures n >= 0 && (sps.picHeightInMinCbsY > 0 ==> n >= sps.picHeightInMinCbsY)
  {
    sps.picHeightInMinCbsY * Pow2(sps.log2MinCbSizeY - 2)
  }

  /** Position of the prediction unit (x, y) in the pb_info array with row pitch stride. */
  function PbIndex(x: int, y: int, stride: int): int
  {
    x + y * stride
  }

  /**
   * The pb_info size and row pitch after de265_alloc_image as written: both
   * are set only when the size changes or the array is missing.
   */
  function PbInfoAsWritten(oldSize: int, oldStride: int, hasArray: bool, puW: int, puH: int): (r: (int, int))
    ensures r.0 == puW * puH
  {
    if oldSize != puW * puH || !hasArray then (puW * puH, puW) else (oldSize, oldStride)
  }

  /**
   * A 4-wide, 8-high grid followed by an 8-wide, 4-high one keeps the size 32,
   * so the row pitch stays 4 and the distinct units (4, 0) and (0, 1) of the
   * new grid share an entry.
   */
  lemma PbInfoAsWrittenStaleStride()
    ensures PbInfoAsWritten(32, 4, true, 8, 4) == (32, 4)
    ensures PbIndex(4, 0, PbInfoAsWritten(32, 4, true, 8, 4).1) == PbIndex(0, 1, PbInfoAsWritten(32, 4, true, 8, 4).1)
  {
    assert 8 * 4 == 32;
  }

  /** With the row pitch equal to the grid width, distinct units of a grid have distinct entries inside the array. */
  lemma {:induction false} PbIndexInjective(puW: int, puH: int, x1: int, y1: int, x2: int, y2: int)
    requires 0 <= x1 < puW && 0 <= y1 < puH && 0 <= x2 < puW && 0 <= y2 < puH
    ensures 0 <= PbIndex(x1, y1, puW) < puW * puH
    ensures PbIndex(x1, y1, puW) == PbIndex(x2, y2, puW) <==> x1 == x2 && y1 == y2
  {
    MulLeft(y1 + 1, puH, puW);
    assert 0 <= y1 * puW;
    if y1 < y2 {
      MulLeft(y1 + 1, y2, puW);
    } else if y2 < y1 {
      MulLeft(y2 + 1, y1, puW);
    }
  }

  /**
   * The pb_info size and row pitch after de265_alloc_image with the pitch
   * kept in step with the grid: the array is still reallocated only when the
   * size changes or it is missing, but the pitch is always the grid width.
   */
  function PbInfoResized(oldSize: int, hasArray: bool, puW: int, puH: int): (int, int)
  {
    if oldSize != puW * puH || !hasArray then (puW * puH, puW) else (oldSize, puW)
  }

  /**
   * With the corrected layout every unit of the new puW×puH grid has its own
   * entry inside the array, whatever size the array had before.
   */
  lemma PbInfoResizedNoAlias(oldSize: int, hasArray: bool, puW: int, puH: int,
                             x1: int, y1: int, x2: int, y2: int)
    requires 0 <= x1 < puW && 0 <= y1 < puH && 0 <= x2 < puW && 0 <= y2 < puH
    ensures var r := PbInfoResized(oldSize, hasArray, puW, puH);
            && 0 <= PbIndex(x1, y1, r.1) < r.0
            && (PbIndex(x1, y1, r.1) == PbIndex(x2, y2, r.1) <==> x1 == x2 && y1 == y2)
  {
    PbIndexInjective(puW, puH, x1, y1, x2, y2);
  }

  /** The samples of a plane, or none when it is not allocated. */
  function PlaneSeq(a: array?<UInt8>): seq<UInt8>
    reads a
  {
    if a == null then [] else a[..]
  }

  /**
   * The picture's size and plane layout: luma size, border, chroma format,
   * the two row pitches and the chroma plane size.
   */
  datatype Geometry = Geometry(
    width: int, height: int, border: int, chromaFormat: ChromaFormat,
    stride: int, chromaStride: int, chromaWidth: int, chromaHeight: int)

  /** The geometry of a zeroed picture. */
  const NoGeometry: Geometry := Geometry(0, 0, 0, Mono, 0, 0, 0, 0)

  /**
   * The geometry de265_alloc_image computes for a w×h picture in chroma
   * format c, with the 4:2:2 chroma size corrected to the covering size; for
   * every other format the chroma size is the one the allocator computes.
   */
  function AllocGeometry(w: int, h: int, c: ChromaFormat): (g: Geometry)
    requires w >= 0 && h >= 0
    ensures g.width == w && g.height == h && g.chromaFormat == c && g.border == Border
    ensures (g.chromaWidth, g.chromaHeight) == ChromaSize(w, h, c)
    ensures c != C422 ==> (g.chromaWidth, g.chromaHeight) == ChromaSizeAsWritten(w, h, c)
    ensures g.stride == AlignUp(w) && g.chromaStride == AlignUp(g.chromaWidth)
  {
    var size := ChromaSize(w, h, c);
    Geometry(w, h, Border, c, AlignUp(w), AlignUp(size.0), size.0, size.1)
  }

  /** The sizes agree with the pitches: rows fit in them and nothing is negative. */
  predicate GeometryOk(g: Geometry)
  {
    && g.border == Border
    && 0 <= g.width <= g.stride && 0 <= g.height
    && 0 <= g.chromaWidth <= g.chromaStride && 0 <= g.chromaHeight
  }

  class Image {
    var geo: Geometry

    var y: array?<UInt8>
    var cb: array?<UInt8>
    var cr: array?<UInt8>

    var intraPredMode: array?<UInt8>
    var intraPredModeSize: int
    var cbInfo: array?<CbRefInfo>
    var cbInfoSize: int
    var pbInfo: array?<PbRefInfo>
    var pbInfoSize: int
    var pbInfoStride: int

    var pictureOrderCntLsb: int
    var picOrderCntVal: int
    var picState: PictureState
    var tasksPending: int

    /** The allocated sample planes. */
    function Planes(): set<array<UInt8>>
      reads this
    {
      (if y != null then {y} else {}) + (if cb != null then {cb} else {}) + (if cr != null then {cr} else {})
    }

    /**
     * Geometry and buffers agree: each allocated plane holds exactly its
     * pitch times its rows, the planes are distinct, a non-mono picture has
     * all three planes, and each metadata array has its recorded size.
     */
    predicate Valid()
      reads this
    {
      && GeometryOk(geo)
      && (y != null ==> y.Length == geo.stride * geo.height)
      && (y == null ==> geo.width == 0 && geo.height == 0)
      && (cb != null ==> cb.Length == geo.chromaStride * geo.chromaHeight)
      && (cr != null ==> cr.Length == geo.chromaStride * geo.chromaHeight)
      && (geo.chromaFormat != Mono ==> y != null && cb != null && cr != null)
      && (y != null && cb != null ==> y != cb)
      && (y != null && cr != null ==> y != cr)
      && (cb != null && cr != null ==> cb != cr)
      && (intraPredMode != null ==> intraPredMode.Length == intraPredModeSize)
      && (intraPredMode == null ==> intraPredModeSize == 0)
      && (cbInfo != null ==> cbInfo.Length == cbInfoSize)
      && (cbInfo == null ==> cbInfoSize == 0)
      && (pbInfo != null ==> pbInfo.Length == pbInfoSize)
      && (pbInfo == null ==> pbInfoSize == 0)
    }

    /** The planes already have size w×h, chroma format c and the allocator's border. */
    predicate SameShape(w: int, h: int, c: ChromaFormat)
      reads this
    {
      geo.width == w && geo.height == h && geo.chromaFormat == c && geo.border == Border
    }

    /** Every field but the picture order values zero, as memset(img, 0, ...) leaves them. */
    predicate Cleared()
      reads this
    {
      && geo == NoGeometry
      && y == null && cb == null && cr == null
      && intraPredMode == null && intraPredModeSize == 0
      && cbInfo == null && cbInfoSize == 0
      && pbInfo == null && pbInfoSize == 0 && pbInfoStride == 0
      && picState == UnusedForReference && tasksPending == 0
    }

    /** de265_init_image: all fields zero except the two picture order values, which are -1 (undefined). */
    constructor Init()
      ensures Cleared() && Valid()
      ensures pictureOrderCntLsb == -1 && picOrderCntVal == -1
    {
      geo := NoGeometry;
      y, cb, cr := null, null, null;
      intraPredMode, intraPredModeSize := null, 0;
      cbInfo, cbInfoSize := null, 0;
      pbInfo, pbInfoSize, pbInfoStride := null, 0, 0;
      pictureOrderCntLsb, picOrderCntVal := -1, -1;
      picState, tasksPending := UnusedForReference, 0;
    }

    /** de265_free_image: releases the buffers and resets every field to zero. */
    method Free()
      modifies this
      ensures Cleared() && Valid()
      ensures pictureOrderCntLsb == 0 && picOrderCntVal == 0
    {
      ReleasePlanes();
      ReleaseMetadata();
      pictureOrderCntLsb, picOrderCntVal := 0, 0;
      picState, tasksPending := UnusedForReference, 0;
    }

    method ReleasePlanes()
      modifies this`geo, this`y, this`cb, this`cr
      ensures geo == NoGeometry && y == null && cb == null && cr == null
    {
      geo, y, cb, cr := NoGeometry, null, null, null;
    }

    method ReleaseMetadata()
      modifies this`intraPredMode, this`intraPredModeSize, this`cbInfo, this`cbInfoSize
      modifies this`pbInfo, this`pbInfoSize, this`pbInfoStride
      ensures intraPredMode == null && intraPredModeSize == 0
      ensures cbInfo == null && cbInfoSize == 0
      ensures pbInfo == null && pbInfoSize == 0 && pbInfoStride == 0
    {
      intraPredMode, intraPredModeSize := null, 0;
      cbInfo, cbInfoSize := null, 0;
      pbInfo, pbInfoSize, pbInfoStride := null, 0, 0;
    }

    /**
     * de265_alloc_image: the planes are reallocated only when the size,
     * chroma format or border changes; with a parameter set, each metadata
     * array is reallocated only when its size changes (or, for cb_info and
     * pb_info, when it is missing). The pb_info row pitch always becomes the
     * grid width.
     */
    method Alloc(w: int, h: int, c: ChromaFormat, sps: Option<SeqParams>)
      requires Valid() && w >= 0 && h >= 0
      requires sps.Some? ==> SeqParamsOk(sps.value)
      modifies this`geo, this`y, this`cb, this`cr
      modifies this`intraPredMode, this`intraPredModeSize, this`cbInfo, this`cbInfoSize
      modifies this`pbInfo, this`pbInfoSize, this`pbInfoStride
      ensures Valid()
      ensures geo.width == w && geo.height == h && geo.chromaFormat == c && geo.border == Border
      ensures old(SameShape(w, h, c)) ==> geo == old(geo) && y == old(y) && cb == old(cb) && cr == old(cr)
      ensures !old(SameShape(w, h, c)) ==>
                && geo == AllocGeometry(w, h, c)
                && y != null && fresh(y)
                && (c != Mono ==> fresh(cb) && fresh(cr))
                && (c == Mono ==> cb == null && cr == null)
      ensures sps.None? ==>
                && intraPredMode == old(intraPredMode) && intraPredModeSize == old(intraPredModeSize)
                && cbInfo == old(cbInfo) && cbInfoSize == old(cbInfoSize)
                && pbInfo == old(pbInfo) && pbInfoSize == old(pbInfoSize) && pbInfoStride == old(pbInfoStride)
      ensures sps.Some? ==>
                var p := sps.value;
                && intraPredModeSize == p.picWidthInMinPUs * p.picHeightInMinPUs
                && (if intraPredModeSize == old(intraPredModeSize) then intraPredMode == old(intraPredMode)
                    else intraPredMode != null && fresh(intraPredMode))
                && cbInfoSize == p.picSizeInMinCbsY && cbInfo != null
                && (if old(cbInfoSize) == cbInfoSize && old(cbInfo) != null then cbInfo == old(cbInfo)
                    else fresh(cbInfo))
                && pbInfoSize == PuWidth(p) * PuHeight(p) && pbInfoStride == PuWidth(p) && pbInfo != null
                && (if old(pbInfoSize) == pbInfoSize && old(pbInfo) != null then pbInfo == old(pbInfo)
                    else fresh(pbInfo))
    {
      if !SameShape(w, h, c) {
        ReallocPlanes(w, h, c);
      }
      if sps.Some? {
        var p := sps.value;
        ResizeIntraPredMode(p.picWidthInMinPUs, p.picHeightInMinPUs);
        ResizeCbInfo(p.picSizeInMinCbsY);
        ResizePbInfo(PuWidth(p), PuHeight(p));
      }
    }

    /** The plane half of de265_alloc_image when the size, format or border changed: new geometry, new planes. */
    method ReallocPlanes(w: int, h: int, c: ChromaFormat)
      requires Valid() && w >= 0 && h >= 0
      modifies this`geo, this`y, this`cb, this`cr
      ensures Valid()
      ensures geo == AllocGeometry(w, h, c)
      ensures y != null && fresh(y)
      ensures c != Mono ==> fresh(cb) && fresh(cr)
      ensures c == Mono ==> cb == null && cr == null
    {
      var g := AllocGeometry(w, h, c);
      MulNonNeg(g.stride, h + 2 * Border);
      var luma := new UInt8[g.stride * (h + 2 * Border)];
      if c != Mono {
        MulNonNeg(g.chromaStride, g.chromaHeight + 2 * Border);
        var cbPlane := new UInt8[g.chromaStride * (g.chromaHeight + 2 * Border)];
        var crPlane := new UInt8[g.chromaStride * (g.chromaHeight + 2 * Border)];
        geo, y, cb, cr := g, luma, cbPlane, crPlane;
      } else {
        geo, y, cb, cr := g, luma, null, null;
      }
    }

    /** The intra prediction mode array is reallocated only when its size changes. */
    method ResizeIntraPredMode(puCols: int, puRows: int)
      requires Valid() && puCols >= 0 && puRows >= 0
      modifies this`intraPredMode, this`intraPredModeSize
      ensures Valid()
      ensures intraPredModeSize == puCols * puRows
      ensures if intraPredModeSize == old(intraPredModeSize) then intraPredMode == old(intraPredMode)
              else intraPredMode != null && fresh(intraPredMode)
    {
      var size := puCols * puRows;
      MulNonNeg(puCols, puRows);
      if size != intraPredModeSize {
        intraPredModeSize := size;
        intraPredMode := new UInt8[size];
      }
    }

    /** The cb_info array is reallocated when its size changes or it is missing. */
    method ResizeCbInfo(size: int)
      requires Valid() && size >= 0
      modifies this`cbInfo, this`cbInfoSize
      ensures Valid()
      ensures cbInfoSize == size && cbInfo != null
      ensures if old(cbInfoSize) == size && old(cbInfo) != null then cbInfo == old(cbInfo) else fresh(cbInfo)
    {
      if cbInfoSize != size || cbInfo == null {
        cbInfoSize := size;
        cbInfo := new CbRefInfo[size];
      }
    }

    /**
     * The pb_info array is reallocated when its size changes or it is
     * missing; its row pitch becomes the grid width in either case.
     */
    method ResizePbInfo(puW: int, puH: int)
      requires Valid() && puW >= 0 && puH >= 0
      modifies this`pbInfo, this`pbInfoSize, this`pbInfoStride
      ensures Valid()
      ensures (pbInfoSize, pbInfoStride) == PbInfoResized(old(pbInfoSize), old(pbInfo) != null, puW, puH)
      ensures pbInfoSize == PbInfoAsWritten(old(pbInfoSize), old(pbInfoStride), old(pbInfo) != null, puW, puH).0
      ensures old(pbInfoSize) != puW * puH || old(pbInfo) == null || old(pbInfoStride) == puW ==>
                pbInfoStride == PbInfoAsWritten(old(pbInfoSize), old(pbInfoStride), old(pbInfo) != null, puW, puH).1
      ensures pbInfoSize == puW * puH && pbInfoStride == puW && pbInfo != null
      ensures if old(pbInfoSize) == puW * puH && old(pbInfo) != null then pbInfo == old(pbInfo) else fresh(pbInfo)
    {
      MulNonNeg(puW, puH);
      if pbInfoSize != puW * puH || pbInfo == null {
        pbInfoSize := puW * puH;
        pbInfo := new PbRefInfo[pbInfoSize];
      }
      pbInfoStride := puW;
    }

    /**
     * de265_fill_image: sets every sample of a plane to its value when the
     * value is not negative; a plane given a negative value is unchanged.
     * A missing luma plane belongs to a 0×0 picture, whose region is empty;
     * a missing chroma plane (mono) would be written over the chroma size,
     * so a chroma value is only given when the plane exists.
     */
    method Fill(yv: int, cbv: int, crv: int)
      requires Valid() && yv < 0x100 && cbv < 0x100 && crv < 0x100
      requires (cbv >= 0 ==> cb != null) && (crv >= 0 ==> cr != null)
      modifies y, cb, cr
      ensures yv >= 0 ==> forall i | 0 <= i < |PlaneSeq(y)| :: PlaneSeq(y)[i] == yv
      ensures cbv >= 0 ==> forall i | 0 <= i < cb.Length :: cb[i] == cbv
      ensures crv >= 0 ==> forall i | 0 <= i < cr.Length :: cr[i] == crv
      ensures yv < 0 ==> PlaneSeq(y) == old(PlaneSeq(y))
      ensures cbv < 0 ==> PlaneSeq(cb) == old(PlaneSeq(cb))
      ensures crv < 0 ==> PlaneSeq(cr) == old(PlaneSeq(cr))
    {
      if yv >= 0 && y != null {
        FillPlane(y, yv as UInt8);
      }
      if cbv >= 0 {
        FillPlane(cb, cbv as UInt8);
      }
      if crv >= 0 {
        FillPlane(cr, crv as UInt8);
      }
    }

    /**
     * de265_copy_image into this picture: each of src's rows is copied over
     * src's width, and the chroma planes likewise unless src is mono. Rows
     * then match src sample for sample, and every byte outside the copied
     * rows (the padding past the width, the rows below) keeps its value.
     */
    method CopyFrom(src: Image)
      requires Valid() && src.Valid() && Planes() !! src.Planes()
      requires src.geo.width <= geo.width && src.geo.height <= geo.height
      requires src.geo.chromaFormat != Mono ==>
                 && geo.chromaFormat != Mono
                 && src.geo.chromaWidth <= geo.chromaWidth && src.geo.chromaHeight <= geo.chromaHeight
      modifies y, cb, cr
      ensures var g, s := geo, src.geo;
              && WindowIn(PlaneSeq(y), 0, g.stride, s.width, s.height)
              && WindowIn(PlaneSeq(src.y), 0, s.stride, s.width, s.height)
              && SameWindow(PlaneSeq(y), 0, g.stride, PlaneSeq(src.y), 0, s.stride, s.width, s.height)
      ensures forall i | 0 <= i < |PlaneSeq(y)| && !Covered(i, geo.stride, src.geo.width, src.geo.height) ::
                PlaneSeq(y)[i] == old(PlaneSeq(y))[i]
      ensures var g, s := geo, src.geo;
              s.chromaFormat != Mono ==>
                && WindowIn(PlaneSeq(cb), 0, g.chromaStride, s.chromaWidth, s.chromaHeight)
                && WindowIn(PlaneSeq(src.cb), 0, s.chromaStride, s.chromaWidth, s.chromaHeight)
                && WindowIn(PlaneSeq(cr), 0, g.chromaStride, s.chromaWidth, s.chromaHeight)
                && WindowIn(PlaneSeq(src.cr), 0, s.chromaStride, s.chromaWidth, s.chromaHeight)
                && SameWindow(PlaneSeq(cb), 0, g.chromaStride, PlaneSeq(src.cb), 0, s.chromaStride,
                              s.chromaWidth, s.chromaHeight)
                && SameWindow(PlaneSeq(cr), 0, g.chromaStride, PlaneSeq(src.cr), 0, s.chromaStride,
                              s.chromaWidth, s.chromaHeight)
      ensures src.geo.chromaFormat != Mono ==>
                && (forall i | 0 <= i < |PlaneSeq(cb)| && !Covered(i, geo.chromaStride, src.geo.chromaWidth, src.geo.chromaHeight) ::
                      PlaneSeq(cb)[i] == old(PlaneSeq(cb))[i])
                && (forall i | 0 <= i < |PlaneSeq(cr)| && !Covered(i, geo.chromaStride, src.geo.chromaWidth, src.geo.chromaHeight) ::
                      PlaneSeq(cr)[i] == old(PlaneSeq(cr))[i])
      ensures src.geo.chromaFormat == Mono ==> PlaneSeq(cb) == old(PlaneSeq(cb)) && PlaneSeq(cr) == old(PlaneSeq(cr))
    {
      var g, s := geo, src.geo;
      if s.height > 0 {
        CopyWindow(y, g.stride, g.height, src.y, s.stride, s.height, s.width, s.height);
      } else {
        PlaneWindow(y, g.stride, g.width, g.height, s.width, s.height);
        PlaneWindow(src.y, s.stride, s.width, s.height, s.width, s.height);
      }
      if s.chromaFormat != Mono {
        // The source interleaves the two chroma planes row by row; they are
        // distinct arrays, so copying one after the other gives the same result.
        CopyWindow(cb, g.chromaStride, g.chromaHeight, src.cb, s.chromaStride, s.chromaHeight,
                   s.chromaWidth, s.chromaHeight);
        CopyWindow(cr, g.chromaStride, g.chromaHeight, src.cr, s.chromaStride, s.chromaHeight,
                   s.chromaWidth, s.chromaHeight);
      }
    }

    /**
     * get_image_plane: channel 0 is luma with the luma pitch, channels 1 and
     * 2 are Cb and Cr with the chroma pitch, any other channel gives no plane
     * and pitch 0.
     */
    function GetImagePlane(cIdx: int): (r: (array?<UInt8>, int))
      reads this
      ensures !(0 <= cIdx <= 2) ==> r.0 == null && r.1 == 0
      ensures r.0 != null ==> r.0 in Planes()
      ensures Valid() && cIdx == 0 && r.0 != null ==> r.0.Length == r.1 * geo.height && geo.width <= r.1
      ensures Valid() && (cIdx == 1 || cIdx == 2) && r.0 != null ==>
                r.0.Length == r.1 * geo.chromaHeight && geo.chromaWidth <= r.1
      ensures Valid() && geo.chromaFormat != Mono && 0 <= cIdx <= 2 ==> r.0 != null
    {
      match cIdx
      case 0 => (y, geo.stride)
      case 1 => (cb, geo.chromaStride)
      case 2 => (cr, geo.chromaStride)
      case _ => (null, 0)
    }

    /** increase_pending_tasks: n more tasks are outstanding. */
    method IncreasePendingTasks(n: int)
      modifies this`tasksPending
      ensures tasksPending == old(tasksPending) + n
    {
      tasksPending := tasksPending + n;
    }

    /**
     * decrease_pending_tasks: n tasks have finished; the count never drops
     * below zero, and the finished condition is broadcast exactly when it
     * reaches zero.
     */
    method DecreasePendingTasks(n: int) returns (broadcast: bool)
      requires tasksPending - n >= 0
      modifies this`tasksPending
      ensures tasksPending == old(tasksPending) - n && tasksPending >= 0
      ensures broadcast <==> tasksPending == 0
    {
      tasksPending := tasksPending - n;
      broadcast := tasksPending == 0;
    }
  }

  lemma MulNonNeg(a: int, b: int)
    requires a >= 0 && b >= 0
    ensures a * b >= 0
  {
  }

  /** A plane of pitch stride and rows rows whose rows are width wide holds any w×h window with w <= width, h <= rows. */
  lemma PlaneWindow(a: array?<UInt8>, stride: int, width: int, rows: int, w: int, h: int)
    requires 0 <= w <= width <= stride && 0 <= h <= rows
    requires a != null ==> a.Length == stride * rows
    requires a == null ==> w == 0 || h == 0
    ensures WindowIn(PlaneSeq(a), 0, stride, w, h)
  {
    if w > 0 && h > 0 {
      MulLeft(h, rows, stride);
    }
  }

  /**
   * The copy loop over one plane pair: the w×h window of from (pitch fstride)
   * lands in dst (pitch dstride) row for row, and nothing else in dst changes.
   */
  method CopyWindow(dst: array<UInt8>, dstride: int, drows: int, from: array<UInt8>, fstride: int, frows: int,
                    w: int, h: int)
    requires dst != from && 0 <= w <= dstride && w <= fstride && 0 <= h <= drows && h <= frows
    requires dst.Length == dstride * drows && from.Length == fstride * frows
    modifies dst
    ensures WindowIn(dst[..], 0, dstride, w, h) && WindowIn(from[..], 0, fstride, w, h)
    ensures SameWindow(dst[..], 0, dstride, from[..], 0, fstride, w, h)
    ensures forall i | 0 <= i < dst.Length && !Covered(i, dstride, w, h) :: dst[i] == old(dst[i])
  {
    PlaneWindow(dst, dstride, w, drows, w, h);
    PlaneWindow(from, fstride, w, frows, w, h);
    CopyPlane(dst, dstride, from, fstride, w, h);
    CopyRowsRows(old(dst[..]), dstride, from[..], fstride, w, h);
    CopyRowsOutside(old(dst[..]), dstride, from[..], fstride, w, h);
  }

  /** Three tasks are added, then one and two finish: the counter ends at zero after exactly one broadcast. */
  method PendingTasksScenario() returns (pending: int, broadcasts: nat)
    ensures pending == 0 && broadcasts == 1
  {
    var img := new Image.Init();
    img.IncreasePendingTasks(3);
    var first := img.DecreasePendingTasks(1);
    var second := img.DecreasePendingTasks(2);
    broadcasts := (if first then 1 else 0) + (if second then 1 else 0);
    pending := img.tasksPending;
  }
}
