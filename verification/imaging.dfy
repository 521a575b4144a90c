/** What the batch script does to one image before it reaches the WebP
    encoder: `resize_image` (sourcesetmaker.py:33-40) and the colour-mode
    normalisation at the top of `convert_to_webp` (sourcesetmaker.py:47-55).
    Pixels are not modelled: an image is its size and its PIL mode name. */
module Imaging {
  import opened Wrappers

  /** A PIL image as far as the script looks at it: `width`, `height`, `mode`
      ("RGB", "RGBA", "LA", "P", "L", "CMYK", ...). */
  datatype Image = Image(width: nat, height: nat, mode: string)

  function Min(a: int, b: int): int {
    if a <= b then a else b
  }

  /** `int(h * (t / w))` for `w > 0`: Python's `int` truncates toward zero.
      The script computes the ratio in floating point; the model uses the exact
      rational value, which the float product can miss by one in rare rounding
      cases. */
  function ScaledHeight(h: nat, t: int, w: nat): (q: int)
    requires w > 0
    ensures t >= 0 ==> q >= 0 && q * w <= h * t < (q + 1) * w
    ensures t < 0 ==> q <= 0
  {
    if t >= 0 then h * t / w else -((h * -t) / w)
  }

  /** `resize_image(image, target_width)`. `None` stands for the call raising:
      a zero-width source with a negative target divides by zero, and PIL's
      `resize` refuses a requested size whose width or height is below one. */
  function ResizeImage(img: Image, target: int): (r: Option<Image>)
    ensures img.width <= target ==> r == Some(img)
    ensures img.width > target ==> (r.Some? <==> target >= 1 && img.height * target >= img.width)
    ensures r.Some? && img.width > target ==>
              && r.value.width == target
              && r.value.mode == img.mode
              && r.value.height * img.width <= img.height * target < (r.value.height + 1) * img.width
  {
    if img.width <= target then Some(img)
    else if img.width == 0 then None
    else
      var h := ScaledHeight(img.height, target, img.width);
      if target < 1 || h < 1 then None else Some(Image(target, h, img.mode))
  }

  /** A resized image is never larger than its source in either dimension, and
      its width is the smaller of the source width and the target. */
  lemma ResizeNeverEnlarges(img: Image, target: int)
    requires ResizeImage(img, target).Some?
    ensures var r := ResizeImage(img, target).value;
            && r.width == Min(img.width, target)
            && r.width <= img.width
            && r.height <= img.height
            && r.mode == img.mode
  {
    var r := ResizeImage(img, target).value;
    if img.width > target {
      // r.height * w <= h * t <= h * w, and w > 0
      assert img.height * target <= img.height * img.width by {
        MulMonotone(img.height, target, img.width);
      }
      if r.height > img.height {
        MulMonotone(img.width, img.height + 1, r.height);
        assert false;
      }
    }
  }

  lemma MulMonotone(a: nat, b: int, c: int)
    requires b <= c
    ensures a * b <= a * c
  {
  }

  /** The white-background paste either uses the alpha band as its mask or none. */
  datatype Mask = NoMask | AlphaBand

  /** One step of the normalisation in `convert_to_webp`. */
  datatype Step =
    | ConvertTo(target: string)   // img.convert(target)
    | PasteOnWhite(mask: Mask)    // paste onto Image.new('RGB', img.size, white)

  /** The decision table of `convert_to_webp`: palette images are expanded to
      RGBA first, then RGBA, LA and expanded-palette images are pasted onto
      white (with the alpha band as mask only when the image is RGBA at that
      point); any other mode but RGB is converted to RGB; RGB passes. */
  function NormalizationSteps(mode: string): (steps: seq<Step>)
    ensures steps == [] <==> mode == "RGB"
    ensures PasteOnWhite(AlphaBand) in steps <==> mode == "RGBA" || mode == "P"
    ensures PasteOnWhite(NoMask) in steps <==> mode == "LA"
    ensures (ConvertTo("RGBA") in steps) <==> mode == "P"
    ensures mode == "P" ==> steps[0] == ConvertTo("RGBA")
    ensures ConvertTo("RGB") in steps <==> mode !in {"RGBA", "LA", "P", "RGB"}
    ensures mode == "RGBA" ==> steps == [PasteOnWhite(AlphaBand)]
    ensures mode == "LA" ==> steps == [PasteOnWhite(NoMask)]
    ensures mode == "P" ==> steps == [ConvertTo("RGBA"), PasteOnWhite(AlphaBand)]
    ensures mode !in {"RGBA", "LA", "P", "RGB"} ==> steps == [ConvertTo("RGB")]
    ensures |steps| <= 2
  {
    if mode in {"RGBA", "LA", "P"} then
      var expanded := if mode == "P" then "RGBA" else mode;
      (if mode == "P" then [ConvertTo("RGBA")] else [])
      + [PasteOnWhite(if expanded == "RGBA" then AlphaBand else NoMask)]
    else if mode != "RGB" then [ConvertTo("RGB")]
    else []
  }

  /** The effect of one step on the image record: a conversion changes the
      mode, a paste yields the white RGB background of the same size. */
  function ApplyStep(img: Image, step: Step): (r: Image)
    ensures r.width == img.width && r.height == img.height
  {
    match step
    case ConvertTo(m) => img.(mode := m)
    case PasteOnWhite(_) => Image(img.width, img.height, "RGB")
  }

  function ApplySteps(img: Image, steps: seq<Step>): (r: Image)
    ensures r.width == img.width && r.height == img.height
  {
    if steps == [] then img
    else ApplyStep(ApplySteps(img, steps[..|steps| - 1]), steps[|steps| - 1])
  }

  /** The image `convert_to_webp` hands to the WebP encoder. */
  function Normalize(img: Image): (r: Image)
    ensures r.mode == "RGB"
    ensures r.width == img.width && r.height == img.height
    ensures img.mode == "RGB" ==> r == img
  {
    ApplySteps(img, NormalizationSteps(img.mode))
  }

  /** Normalising twice is normalising once: the encoder always receives an
      image that needs no further conversion. */
  lemma NormalizeIdempotent(img: Image)
    ensures Normalize(Normalize(img)) == Normalize(img)
    ensures NormalizationSteps(Normalize(img).mode) == []
  {
  }
}
