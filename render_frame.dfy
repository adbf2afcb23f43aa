// Per-frame collection of libass output into mpv's bitmap list
// (mp_ass_render_frame in sub/ass_mp.c).

module AssRender {

  /** One ASS_Image of the list libass returns for a frame. The `next` link
      becomes the order of a sequence and the pixel pointer an opaque id. */
  datatype Image = Image(w: int, h: int, stride: int, bitmap: nat, color: int, dstX: int, dstY: int)

  /** What one call of ass_render_frame yields: the image list and its `changed` flag. */
  datatype RenderedFrame = RenderedFrame(images: seq<Image>, changed: bool)

  /** One struct sub_bitmap: position, logical size, display size, the aliased
      pixel pointer, its stride and the libass colour payload. */
  datatype SubBitmap = SubBitmap(bitmap: nat, stride: int, color: int,
                                 w: int, h: int, dw: int, dh: int, x: int, y: int)

  /** The `format` tag of struct sub_bitmaps: unset (0), libass, or another renderer's. */
  datatype BitmapFormat = Empty | Libass | OtherFormat

  /** A zero-area image, which the accumulation skips. */
  predicate Degenerate(img: Image)
  {
    img.w == 0 || img.h == 0
  }

  /** The part written for a non-degenerate image. */
  function ToPart(img: Image): SubBitmap
  {
    SubBitmap(img.bitmap, img.stride, img.color, img.w, img.h, img.w, img.h, img.dstX, img.dstY)
  }

  /** The parts a list of images contributes, in list order. */
  function Visible(imgs: seq<Image>): (parts: seq<SubBitmap>)
    ensures |parts| <= |imgs|
    ensures forall p :: p in parts ==> p.w != 0 && p.h != 0 && p.dw == p.w && p.dh == p.h
  {
    if imgs == [] then []
    else
      var last := imgs[|imgs| - 1];
      Visible(imgs[..|imgs| - 1]) + (if Degenerate(last) then [] else [ToPart(last)])
  }

  /** Extending the image list by one image extends the parts by at most its copy. */
  lemma VisibleSnoc(imgs: seq<Image>, i: nat)
    requires i < |imgs|
    ensures Visible(imgs[..i + 1]) ==
      Visible(imgs[..i]) + (if Degenerate(imgs[i]) then [] else [ToPart(imgs[i])])
  {
    assert imgs[..i + 1][..i] == imgs[..i];
  }

  /** Indices of the images that are kept: an independent count of what Visible keeps. */
  ghost function KeptIndices(imgs: seq<Image>): set<int>
  {
    set i | 0 <= i < |imgs| && !Degenerate(imgs[i])
  }

  /** The number of parts appended is exactly the number of images with
      non-zero width and height. */
  lemma {:induction false} VisibleCountsKept(imgs: seq<Image>)
    ensures |Visible(imgs)| == |KeptIndices(imgs)|
  {
    if imgs != [] {
      var m := |imgs| - 1;
      var init := imgs[..m];
      VisibleCountsKept(init);
      if Degenerate(imgs[m]) {
        assert KeptIndices(imgs) == KeptIndices(init);
      } else {
        assert KeptIndices(imgs) == KeptIndices(init) + {m};
        assert m !in KeptIndices(init);
      }
    }
  }

  /** Every appended part is the copy of some non-degenerate input image. */
  lemma {:induction false} VisibleFromImages(imgs: seq<Image>)
    ensures forall p :: p in Visible(imgs) ==>
      exists i :: 0 <= i < |imgs| && !Degenerate(imgs[i]) && p == ToPart(imgs[i])
  {
    if imgs != [] {
      var m := |imgs| - 1;
      var init := imgs[..m];
      VisibleFromImages(init);
      forall p | p in Visible(imgs)
        ensures exists i :: 0 <= i < |imgs| && !Degenerate(imgs[i]) && p == ToPart(imgs[i])
      {
        if p in Visible(init) {
          var i :| 0 <= i < |init| && !Degenerate(init[i]) && p == ToPart(init[i]);
          assert imgs[i] == init[i];
        } else {
          assert !Degenerate(imgs[m]) && p == ToPart(imgs[m]);
        }
      }
    }
  }

  /** When no image is degenerate, the i-th part is the copy of the i-th image:
      nothing is reordered or dropped. */
  lemma {:induction false} VisibleKeepsAll(imgs: seq<Image>)
    requires forall i :: 0 <= i < |imgs| ==> !Degenerate(imgs[i])
    ensures |Visible(imgs)| == |imgs|
    ensures forall i :: 0 <= i < |imgs| ==> Visible(imgs)[i] == ToPart(imgs[i])
  {
    if imgs != [] {
      var m := |imgs| - 1;
      VisibleKeepsAll(imgs[..m]);
    }
  }

  /** Two lists rendered one after the other, without a reset in between,
      give the parts of the concatenated list: accumulation is additive. */
  lemma {:induction false} VisibleConcat(a: seq<Image>, b: seq<Image>)
    ensures Visible(a + b) == Visible(a) + Visible(b)
  {
    if b == [] {
      assert a + b == a;
    } else {
      var m := |b| - 1;
      assert (a + b)[..|a + b| - 1] == a + b[..m];
      VisibleConcat(a, b[..m]);
    }
  }

  /** The part of a kept image sits in the output at the index given by the
      number of parts its predecessors contribute. */
  lemma VisibleAt(imgs: seq<Image>, i: nat)
    requires i < |imgs| && !Degenerate(imgs[i])
    ensures |Visible(imgs[..i])| < |Visible(imgs)|
    ensures Visible(imgs)[|Visible(imgs[..i])|] == ToPart(imgs[i])
  {
    assert imgs == imgs[..i] + ([imgs[i]] + imgs[i + 1..]);
    VisibleConcat(imgs[..i], [imgs[i]] + imgs[i + 1..]);
    VisibleConcat([imgs[i]], imgs[i + 1..]);
    assert Visible([imgs[i]]) == Visible([]) + [ToPart(imgs[i])];
  }

  /** Zero-area images mixed in or not, the parts of two kept images come out
      in the order of the images: the earlier image's part comes first. */
  lemma VisibleInOrder(imgs: seq<Image>, i: nat, j: nat)
    requires i < j < |imgs| && !Degenerate(imgs[i]) && !Degenerate(imgs[j])
    ensures var p, q := |Visible(imgs[..i])|, |Visible(imgs[..j])|;
      p < q < |Visible(imgs)| &&
      Visible(imgs)[p] == ToPart(imgs[i]) && Visible(imgs)[q] == ToPart(imgs[j])
  {
    VisibleAt(imgs, i);
    VisibleAt(imgs, j);
    VisibleAt(imgs[..j], i);
    assert imgs[..j][..i] == imgs[..i];
  }

  /** The growth rule of the parts buffer: MPMAX(capacity * 2, 32). */
  function Grow(capacity: nat): (r: nat)
    ensures r > capacity && r >= 32
  {
    if capacity * 2 > 32 then capacity * 2 else 32
  }

  function Max(a: int, b: int): int
  {
    if a > b then a else b
  }

  /** The capacity the buffer has once `count` parts are stored, starting from
      `capacity` and growing by Grow only when a part does not fit. */
  function CapacityFor(capacity: nat, count: nat): (r: nat)
    ensures r >= capacity && r >= count
    ensures count > capacity ==> 32 <= r <= Max(2 * count - 2, 32)
    decreases if count > capacity then count - capacity else 0
  {
    if count <= capacity then capacity else CapacityFor(Grow(capacity), count)
  }

  /** The capacity after one append: grown only when the buffer is full. */
  function GrowIfFull(capacity: nat, count: nat): nat
  {
    if count >= capacity then Grow(capacity) else capacity
  }

  /** Appending one part grows the capacity exactly when the buffer is full. */
  lemma {:induction false} CapacityForStep(capacity: nat, count: nat)
    ensures CapacityFor(capacity, count + 1) == GrowIfFull(CapacityFor(capacity, count), count)
    decreases if count > capacity then count - capacity else 0
  {
    if count > capacity {
      CapacityForStep(Grow(capacity), count);
    }
  }

  /** struct sub_bitmaps: the growable `parts` buffer (its length is the
      allocated capacity), `num_parts`, `change_id` and `format`. */
  class SubBitmaps {
    var parts: array<SubBitmap>
    var numParts: nat
    var changeId: int
    var format: BitmapFormat

    ghost predicate Valid()
      reads this
    {
      numParts <= parts.Length
    }

    /** The parts stored so far, in order. */
    ghost function Parts(): seq<SubBitmap>
      reads this, parts
      requires Valid()
    {
      parts[..numParts]
    }

    /** A zeroed list: no buffer, no parts, format unset. */
    constructor ()
      ensures Valid() && fresh(parts)
      ensures Parts() == [] && parts.Length == 0 && changeId == 0 && format == Empty
    {
      parts := new SubBitmap[0];
      numParts := 0;
      changeId := 0;
      format := Empty;
    }

    /** One step of the image walk: a zero-area image is skipped; otherwise its
        part is stored at index num_parts, the buffer first growing when full. */
    method AddImage(img: Image)
      requires Valid()
      modifies this`parts, this`numParts, parts
      ensures Valid()
      ensures Parts() == old(Parts()) + (if Degenerate(img) then [] else [ToPart(img)])
      ensures numParts == old(numParts) + (if Degenerate(img) then 0 else 1)
      ensures parts.Length == if Degenerate(img) then old(parts.Length)
                              else GrowIfFull(old(parts.Length), old(numParts))
      ensures Degenerate(img) || old(numParts) < old(parts.Length) ==> parts == old(parts)
      ensures parts == old(parts) || fresh(parts)
    {
      if img.w == 0 || img.h == 0 {
        return;
      }
      if numParts >= parts.Length {
        var grown := new SubBitmap[Grow(parts.Length)];
        forall i | 0 <= i < parts.Length {
          grown[i] := parts[i];
        }
        parts := grown;
      }
      parts[numParts] := ToPart(img);
      numParts := numParts + 1;
    }

    /** The walk over the image list: appends a part per non-degenerate image,
        in order, after the parts already there. */
    method AddImages(imgs: seq<Image>)
      requires Valid()
      modifies this`parts, this`numParts, parts
      ensures Valid()
      ensures Parts() == old(Parts()) + Visible(imgs)
      ensures parts.Length == CapacityFor(old(parts.Length), numParts)
      ensures numParts <= old(parts.Length) ==> parts == old(parts)
      ensures parts == old(parts) || fresh(parts)
    {
      ghost var before, capacity := Parts(), parts.Length;
      var i := 0;
      while i < |imgs|
        invariant 0 <= i <= |imgs|
        invariant Valid()
        invariant Parts() == before + Visible(imgs[..i])
        invariant parts.Length == CapacityFor(capacity, numParts)
        invariant parts == old(parts) || fresh(parts)
        invariant numParts <= capacity ==> parts == old(parts)
      {
        VisibleSnoc(imgs, i);
        ghost var n := numParts;
        CapacityForStep(capacity, n);
        AddImage(imgs[i]);
        assert numParts == n || numParts == n + 1;
        i := i + 1;
      }
      assert imgs[..i] == imgs;
    }

    /** Renders one frame into the list: bumps change_id when libass reports a
        change, pins the format to libass, and appends a part per non-degenerate
        image, in order, after the parts already there. */
    method RenderFrame(frame: RenderedFrame)
      requires Valid()
      requires format == Empty || format == Libass
      modifies this, parts
      ensures Valid()
      ensures changeId == old(changeId) + (if frame.changed then 1 else 0)
      ensures format == Libass
      ensures Parts() == old(Parts()) + Visible(frame.images)
      ensures parts.Length == CapacityFor(old(parts.Length), numParts)
      ensures numParts <= old(parts.Length) ==> parts == old(parts)
      ensures parts == old(parts) || fresh(parts)
    {
      if frame.changed {
        changeId := changeId + 1;
      }
      format := Libass;
      AddImages(frame.images);
    }
  }
}
