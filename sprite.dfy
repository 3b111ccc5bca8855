/** A sprite: a row-major buffer of packed pixels with bounds-checked reads and
    writes. `Image` is the value a sprite holds at one moment (and what the
    pure reads work on); `Sprite` is the object whose buffer `set_pixel`
    updates in place. */
module Sprites {
  import opened IntOps
  import opened Pixels

  /** How `get_pixel` treats coordinates; only `Normal` is ever constructed. */
  datatype SampleMode = Normal | Periodic

  datatype Image = Image(width: nat, height: nat, mode: SampleMode, cells: seq<bv32>)
  {
    ghost predicate Valid()
    {
      |cells| == width * height
    }

    /** A periodic read takes a remainder by each dimension, which panics on 0. */
    predicate Readable()
    {
      mode == Periodic ==> width > 0 && height > 0
    }

    predicate InBounds(x: int, y: int)
    {
      0 <= x < width && 0 <= y < height
    }

    /** The row-major position of an in-grid cell. */
    function Index(x: int, y: int): (k: nat)
      requires InBounds(x, y)
      ensures k == y * width + x && k < width * height
    {
      IndexInRange(x, y, width, height);
      y * width + x
    }

    /** `get_pixel`: in Normal mode a cell inside the grid is unpacked and every
        other coordinate reads as `Pixel::default()`; in Periodic mode the
        coordinates wrap around with Rust's truncating remainder. */
    function Get(x: int, y: int): (p: Pixel)
      requires Valid() && Readable()
      ensures mode == SampleMode.Normal && InBounds(x, y) ==> Pack(p) == cells[Index(x, y)]
      ensures mode == SampleMode.Normal && !InBounds(x, y) ==> p == Default()
      ensures mode == Periodic ==> Pack(p) == cells[PeriodicIndex(x, y, width, height)]
    {
      if mode == SampleMode.Normal then
        if InBounds(x, y) then
          PackUnpack(cells[Index(x, y)]);
          Unpack(cells[Index(x, y)])
        else
          Default()
      else
        var k := PeriodicIndex(x, y, width, height);
        PackUnpack(cells[k]);
        Unpack(cells[k])
    }

    /** `set_pixel`: an in-grid write replaces exactly one cell; any other
        write leaves the image as it was. */
    function Set(x: int, y: int, p: Pixel): (r: Image)
      requires Valid()
      ensures r.Valid() && r.width == width && r.height == height && r.mode == mode
    {
      if InBounds(x, y) then
        this.(cells := cells[Index(x, y) := Pack(p)])
      else
        this
    }
  }

  /** The cell a Periodic read uses: `|y rem h| * w + |x rem w|`. */
  function PeriodicIndex(x: int, y: int, w: nat, h: nat): (k: int)
    requires w > 0 && h > 0
    ensures 0 <= k < w * h
  {
    var col := Abs(TruncRem(x, w));
    var row := Abs(TruncRem(y, h));
    IndexInRange(col, row, w, h);
    row * w + col
  }

  /** `Sprite::new(w, h)`: w*h cells, all zero. */
  function Blank(w: nat, h: nat): (img: Image)
  {
    Image(w, h, SampleMode.Normal, seq(w * h, _ => 0))
  }

  /** Inside the grid the wrap-around index is the ordinary row-major index. */
  lemma PeriodicIndexInside(x: int, y: int, w: nat, h: nat)
    requires 0 <= x < w && 0 <= y < h
    ensures PeriodicIndex(x, y, w, h) == y * w + x
  {
    TruncRemSmall(x, w);
    TruncRemSmall(y, h);
  }

  /** Inside the grid the two read modes agree. */
  lemma PeriodicAgreesInside(img: Image, x: int, y: int)
    requires img.Valid() && img.InBounds(x, y)
    ensures img.(mode := Periodic).Get(x, y) == img.(mode := SampleMode.Normal).Get(x, y)
  {
    PeriodicIndexInside(x, y, img.width, img.height);
    var periodic, normal := img.(mode := Periodic), img.(mode := SampleMode.Normal);
    UnpackPack(periodic.Get(x, y));
    UnpackPack(normal.Get(x, y));
  }

  /** After `_clear(p)` every cell holds p packed: every in-grid read, and in
      Periodic mode every read at all, gives p back. */
  lemma FilledReads(img: Image, p: Pixel, x: int, y: int)
    requires img.Valid() && img.Readable()
    requires forall k :: 0 <= k < |img.cells| ==> img.cells[k] == Pack(p)
    ensures img.mode == Periodic || img.InBounds(x, y) ==> img.Get(x, y) == p
  {
    if img.mode == Periodic || img.InBounds(x, y) {
      UnpackPack(p);
      UnpackPack(img.Get(x, y));
    }
  }

  /** A fresh sprite has w*h cells and every in-grid read gives BLANK, the
      all-zero word. */
  lemma BlankReadsBlank(w: nat, h: nat, x: int, y: int)
    requires 0 <= x < w && 0 <= y < h
    ensures Blank(w, h).Valid() && |Blank(w, h).cells| == w * h
    ensures Blank(w, h).Get(x, y) == BLANK
  {
    IndexInRange(x, y, w, h);
    BlankIsOnlyTranslucentColour();
  }

  /** A write inside the grid stores the packed pixel in its cell and
      touches no other cell; a write outside the grid changes nothing. */
  lemma SetCells(img: Image, x: int, y: int, p: Pixel)
    requires img.Valid()
    ensures img.InBounds(x, y) ==> img.Set(x, y, p).cells[img.Index(x, y)] == Pack(p)
    ensures forall k :: 0 <= k < |img.cells| && (!img.InBounds(x, y) || k != img.Index(x, y)) ==>
      img.Set(x, y, p).cells[k] == img.cells[k]
  {
  }

  /** Reading back a cell that was just written inside the grid gives the
      written pixel; reading anywhere else gives what was there before. */
  lemma GetAfterSet(img: Image, x: int, y: int, p: Pixel, u: int, v: int)
    requires img.Valid() && img.Readable() && img.mode == SampleMode.Normal
    ensures img.Set(x, y, p).Get(u, v) ==
      if img.InBounds(x, y) && u == x && v == y then p else img.Get(u, v)
  {
    var r := img.Set(x, y, p);
    SetCells(img, x, y, p);
    if img.InBounds(u, v) {
      IndexInRange(u, v, img.width, img.height);
      if img.InBounds(x, y) && (u != x || v != y) {
        if u * 1 + v * img.width == x + y * img.width {
          IndexInjective(u, v, x, y, img.width);
        }
      }
      if img.InBounds(x, y) && u == x && v == y {
        UnpackPack(p);
      }
    }
  }

  /** Outside the grid a Normal read is opaque black, never BLANK. */
  lemma OutsideReadsDefault(img: Image, x: int, y: int)
    requires img.Valid() && img.mode == SampleMode.Normal && !img.InBounds(x, y)
    ensures img.Get(x, y) == Rgb(0, 0, 0) && Pack(img.Get(x, y)) == 0xFF00_0000
  {
  }

  /** The mutable sprite. Its dimensions, sampling mode and buffer are fixed
      at construction; only the buffer's contents change. */
  class Sprite {
    const width: nat
    const height: nat
    const mode: SampleMode
    const data: array<bv32>

    /** The buffer holds exactly width*height cells, both dimensions fit the
        `i32` comparisons `get_pixel` and `set_pixel` make, and a periodic
        sprite is never empty. */
    ghost predicate Valid()
    {
      data.Length == width * height && width < 0x8000_0000 && height < 0x8000_0000 &&
      (mode == Periodic ==> width > 0 && height > 0)
    }

    function View(): (img: Image)
      reads data
      ensures img.width == width && img.height == height && img.mode == mode
    {
      Image(width, height, mode, data[..])
    }

    /** `Sprite::new`; the `u32` product `w * h` must not overflow. */
    constructor (w: nat, h: nat)
      requires w < 0x8000_0000 && h < 0x8000_0000 && w * h < 0x1_0000_0000
      ensures Valid() && fresh(data)
      ensures View() == Blank(w, h)
    {
      width, height, mode := w, h, SampleMode.Normal;
      data := new bv32[w * h](_ => 0);
    }

    /** `Sprite::default()`: the empty 0x0 sprite. */
    constructor Empty()
      ensures Valid() && fresh(data)
      ensures View() == Blank(0, 0)
    {
      width, height, mode := 0, 0, SampleMode.Normal;
      data := new bv32[0];
    }

    /** `get_pixel` on the live buffer. */
    method GetPixel(x: int, y: int) returns (p: Pixel)
      requires Valid()
      ensures p == View().Get(x, y)
    {
      if mode == SampleMode.Normal {
        if 0 <= x < width && 0 <= y < height {
          IndexInRange(x, y, width, height);
          p := Unpack(data[y * width + x]);
        } else {
          p := Default();
        }
      } else {
        p := Unpack(data[PeriodicIndex(x, y, width, height)]);
      }
    }

    method SetPixel(x: int, y: int, p: Pixel) returns (ok: bool)
      requires Valid()
      modifies data
      ensures ok <==> 0 <= x < width && 0 <= y < height
      ensures View() == old(View()).Set(x, y, p)
    {
      ok := 0 <= x < width && 0 <= y < height;
      if ok {
        IndexInRange(x, y, width, height);
        data[y * width + x] := Pack(p);
      }
    }
  }
}
