/** The conversion loop of `main` (sourcesetmaker.py:128-154): every source
    image that opens is written into each width bucket, resized when it is
    wider than the bucket, and then once more at its original size; only that
    last conversion is counted. `Image.open` and the WebP encoder are not
    modelled: they are the oracles `opens` and `converts`. */
module Processing {
  import opened Wrappers
  import opened Imaging
  import Listing

  /** A file the script writes: its directory and its file name. */
  datatype OutPath = OutPath(dir: string, file: string)

  /** One call of `convert_to_webp(source, path, quality)`: the image handed
      to the encoder (after colour normalisation), the quality, and the call's
      boolean result. */
  datatype Attempt = Attempt(path: OutPath, encoded: Image, quality: int, ok: bool)

  /** The bucket keys in dict order, their directories, the `originalsize`
      directory and the quality of the run. */
  datatype Plan = Plan(keys: seq<int>, dirs: map<int, string>, originalDir: string, quality: int) {
    predicate Valid() {
      forall w :: w in keys ==> w in dirs
    }
  }

  /** What the model does not see: whether `Image.open` succeeds on a listed
      file and with what image, and whether `convert_to_webp` returns True. */
  datatype Oracles = Oracles(opens: string -> Option<Image>, converts: (Image, OutPath) -> bool)

  /** `convert_to_webp` (sourcesetmaker.py:42-61): the encoder always gets an
      RGB image of the source's size; the call never raises. */
  function ConvertToWebp(source: Image, path: OutPath, quality: int, converts: (Image, OutPath) -> bool): (a: Attempt)
    ensures a.path == path && a.quality == quality
    ensures a.encoded.mode == "RGB"
    ensures a.encoded.width == source.width && a.encoded.height == source.height
  {
    Attempt(path, Normalize(source), quality, converts(source, path))
  }

  /** `f"{image_path.stem}.webp"` */
  function OutputName(stem: string): string {
    stem + ".webp"
  }

  /** The image written into the bucket of `width` (lines 138-145): resized
      when the original is wider, the original itself otherwise. `None` when
      `resize_image` raises, which ends the processing of this image. */
  function BucketSource(img: Image, width: int): (r: Option<Image>)
    ensures img.width <= width ==> r == Some(img)
    ensures r.None? <==> img.width > width && (width < 1 || img.height * width < img.width)
    ensures r.Some? ==> && r.value.width == Min(img.width, width)
                        && r.value.width <= img.width && r.value.height <= img.height
                        && r.value.mode == img.mode
  {
    if img.width > width then
      var r := ResizeImage(img, width);
      if r.Some? then ResizeNeverEnlarges(img, width); r else r
    else Some(img)
  }

  /** The bucket at which processing of `img` stops because the resize raises,
      or `|keys|` when every resize succeeds. */
  function FirstFailure(img: Image, keys: seq<int>): (k: nat)
    ensures k <= |keys|
    ensures forall j :: 0 <= j < k ==> BucketSource(img, keys[j]).Some?
    ensures k < |keys| ==> BucketSource(img, keys[k]).None?
  {
    if keys == [] then 0
    else if BucketSource(img, keys[0]).None? then 0
    else 1 + FirstFailure(img, keys[1..])
  }

  /** The conversions made for one opened image, and whether it is counted. */
  datatype ImageOutcome = ImageOutcome(attempts: seq<Attempt>, counted: bool)

  function VariantAttempt(img: Image, stem: string, w: int, plan: Plan, converts: (Image, OutPath) -> bool): Attempt
    requires w in plan.dirs && BucketSource(img, w).Some?
  {
    ConvertToWebp(BucketSource(img, w).value, OutPath(plan.dirs[w], OutputName(stem)), plan.quality, converts)
  }

  function OriginalAttempt(img: Image, stem: string, plan: Plan, converts: (Image, OutPath) -> bool): Attempt {
    ConvertToWebp(img, OutPath(plan.originalDir, OutputName(stem)), plan.quality, converts)
  }

  /** The conversions into the first `k` buckets, none of whose resizes raise. */
  function Variants(img: Image, stem: string, plan: Plan, converts: (Image, OutPath) -> bool, k: nat): (r: seq<Attempt>)
    requires plan.Valid() && k <= |plan.keys|
    requires forall j :: 0 <= j < k ==> BucketSource(img, plan.keys[j]).Some?
  {
    seq(k, j requires 0 <= j < k => VariantAttempt(img, stem, plan.keys[j], plan, converts))
  }

  lemma VariantsStep(img: Image, stem: string, plan: Plan, converts: (Image, OutPath) -> bool, k: nat)
    requires plan.Valid() && k < |plan.keys|
    requires forall j :: 0 <= j <= k ==> BucketSource(img, plan.keys[j]).Some?
    ensures Variants(img, stem, plan, converts, k + 1)
            == Variants(img, stem, plan, converts, k) + [VariantAttempt(img, stem, plan.keys[k], plan, converts)]
  {
  }

  /** The body of the `with Image.open(...)` block (lines 135-150) for an
      image that opened: the bucket conversions up to the first resize that
      raises, then, if none raised, the `originalsize` conversion, whose
      result alone decides whether the image is counted. */
  function ProcessedImage(img: Image, stem: string, plan: Plan, converts: (Image, OutPath) -> bool): ImageOutcome
    requires plan.Valid()
  {
    var k := FirstFailure(img, plan.keys);
    var variants := Variants(img, stem, plan, converts, k);
    if k < |plan.keys| then ImageOutcome(variants, false)
    else
      var original := OriginalAttempt(img, stem, plan, converts);
      ImageOutcome(variants + [original], original.ok)
  }

  /** The loop over `width_dirs.items()` followed by the `originalsize`
      conversion. A resize that raises leaves the loop (and the image) early. */
  method ProcessImage(img: Image, stem: string, plan: Plan, converts: (Image, OutPath) -> bool)
    returns (attempts: seq<Attempt>, counted: bool)
    requires plan.Valid()
    ensures ImageOutcome(attempts, counted) == ProcessedImage(img, stem, plan, converts)
  {
    attempts, counted := [], false;
    var j := 0;
    while j < |plan.keys|
      invariant 0 <= j <= |plan.keys|
      invariant forall i :: 0 <= i < j ==> BucketSource(img, plan.keys[i]).Some?
      invariant attempts == Variants(img, stem, plan, converts, j)
    {
      var w := plan.keys[j];
      var path := OutPath(plan.dirs[w], OutputName(stem));
      var attempt;
      if img.width > w {
        var resized := ResizeImage(img, w);
        if resized.None? {
          // the exception reaches the handler of the outer loop (line 152)
          assert FirstFailure(img, plan.keys) == j;
          return;
        }
        attempt := ConvertToWebp(resized.value, path, plan.quality, converts);
      } else {
        attempt := ConvertToWebp(img, path, plan.quality, converts);
      }
      VariantsStep(img, stem, plan, converts, j);
      attempts := attempts + [attempt];
      j := j + 1;
    }
    assert FirstFailure(img, plan.keys) == |plan.keys|;
    var original := ConvertToWebp(img, OutPath(plan.originalDir, OutputName(stem)), plan.quality, converts);
    attempts := attempts + [original];
    counted := original.ok;
  }

  /** What one listed file contributes: nothing when `Image.open` raises
      (the handler at line 152 skips it), otherwise its processing. */
  function FileOutcome(file: string, plan: Plan, env: Oracles): ImageOutcome
    requires plan.Valid()
  {
    match env.opens(file)
    case None => ImageOutcome([], false)
    case Some(img) => ProcessedImage(img, Listing.Stem(file), plan, env.converts)
  }

  /** `successful_conversions` after the given files: one per counted image. */
  function SuccessCount(files: seq<string>, plan: Plan, env: Oracles): (n: nat)
    requires plan.Valid()
    ensures n <= |files|
  {
    if files == [] then 0
    else
      SuccessCount(files[..|files| - 1], plan, env)
      + (if FileOutcome(files[|files| - 1], plan, env).counted then 1 else 0)
  }

  /** Every conversion made for the given files, in order. */
  function AllAttempts(files: seq<string>, plan: Plan, env: Oracles): seq<Attempt>
    requires plan.Valid()
  {
    if files == [] then []
    else AllAttempts(files[..|files| - 1], plan, env) + FileOutcome(files[|files| - 1], plan, env).attempts
  }

  /** The loop over `image_files` (lines 129-154) with its counter. */
  method ProcessAll(files: seq<string>, plan: Plan, env: Oracles) returns (successful: nat, attempts: seq<Attempt>)
    requires plan.Valid()
    ensures successful == SuccessCount(files, plan, env)
    ensures attempts == AllAttempts(files, plan, env)
  {
    successful, attempts := 0, [];
    for i := 0 to |files|
      invariant successful == SuccessCount(files[..i], plan, env)
      invariant attempts == AllAttempts(files[..i], plan, env)
    {
      var file := files[i];
      assert files[..i + 1][..i] == files[..i];
      match env.opens(file)
      case None =>
      case Some(img) =>
        var written, counted := ProcessImage(img, Listing.Stem(file), plan, env.converts);
        attempts := attempts + written;
        if counted {
          successful := successful + 1;
        }
    }
    assert files[..|files|] == files;
  }

  /** Every image that opens and whose resizes all succeed gets exactly one
      output per bucket, in bucket order, and one in `originalsize`. A bucket
      narrower than the image gets the image scaled to the bucket width with
      the height truncated in proportion; any other bucket, and `originalsize`,
      gets the image at its own size. Every output is RGB at the run's quality. */
  lemma ProcessedImageOutputs(img: Image, stem: string, plan: Plan, converts: (Image, OutPath) -> bool)
    requires plan.Valid()
    requires FirstFailure(img, plan.keys) == |plan.keys|
    ensures var o := ProcessedImage(img, stem, plan, converts);
            var n := |plan.keys|;
            && |o.attempts| == n + 1
            && (forall j :: 0 <= j < n ==>
                  var a := o.attempts[j];
                  var w := plan.keys[j];
                  && a.path == OutPath(plan.dirs[w], OutputName(stem))
                  && a.encoded.mode == "RGB" && a.quality == plan.quality
                  && a.encoded.width == Min(img.width, w)
                  && (img.width > w ==>
                        && a.encoded.width == w
                        && a.encoded.height * img.width <= img.height * w < (a.encoded.height + 1) * img.width)
                  && (img.width <= w ==> a.encoded.width == img.width && a.encoded.height == img.height))
            && o.attempts[n].path == OutPath(plan.originalDir, OutputName(stem))
            && o.attempts[n].encoded == Normalize(img)
            && o.counted == o.attempts[n].ok
  {
    var o := ProcessedImage(img, stem, plan, converts);
    var n := |plan.keys|;
    forall j | 0 <= j < n
      ensures var a := o.attempts[j];
              var w := plan.keys[j];
              && a.path == OutPath(plan.dirs[w], OutputName(stem))
              && a.encoded.mode == "RGB" && a.quality == plan.quality
              && a.encoded.width == Min(img.width, w)
              && (img.width > w ==>
                    && a.encoded.width == w
                    && a.encoded.height * img.width <= img.height * w < (a.encoded.height + 1) * img.width)
              && (img.width <= w ==> a.encoded.width == img.width && a.encoded.height == img.height)
    {
      assert o.attempts[j] == VariantAttempt(img, stem, plan.keys[j], plan, converts);
      VariantAttemptShape(img, stem, plan.keys[j], plan, converts);
    }
  }

  /** The output written into one bucket. */
  lemma VariantAttemptShape(img: Image, stem: string, w: int, plan: Plan, converts: (Image, OutPath) -> bool)
    requires w in plan.dirs && BucketSource(img, w).Some?
    ensures var a := VariantAttempt(img, stem, w, plan, converts);
            && a.path == OutPath(plan.dirs[w], OutputName(stem))
            && a.encoded.mode == "RGB" && a.quality == plan.quality
            && a.encoded.width == Min(img.width, w)
            && (img.width > w ==>
                  && a.encoded.width == w
                  && a.encoded.height * img.width <= img.height * w < (a.encoded.height + 1) * img.width)
            && (img.width <= w ==> a.encoded.width == img.width && a.encoded.height == img.height)
  {
    if img.width > w {
      assert BucketSource(img, w) == ResizeImage(img, w);
    }
  }

  /** An image whose resize raises for some bucket is cut short there: it
      gets exactly the outputs of the buckets before that one, no
      `originalsize` output, and is not counted. This happens exactly when a
      bucket narrower than the image is below one pixel wide or would leave
      the resized image less than one pixel high. */
  lemma AbortedImage(img: Image, stem: string, plan: Plan, converts: (Image, OutPath) -> bool)
    requires plan.Valid()
    ensures FirstFailure(img, plan.keys) < |plan.keys| <==>
              exists w :: w in plan.keys && img.width > w && (w < 1 || img.height * w < img.width)
    ensures FirstFailure(img, plan.keys) < |plan.keys| ==>
              var o := ProcessedImage(img, stem, plan, converts);
              && !o.counted
              && |o.attempts| == FirstFailure(img, plan.keys) < |plan.keys|
              && (forall j :: 0 <= j < |o.attempts| ==>
                    o.attempts[j] == VariantAttempt(img, stem, plan.keys[j], plan, converts))
              && forall a :: a in o.attempts ==> a.path.dir in plan.dirs.Values
  {
    FailureIff(img, plan.keys);
    if FirstFailure(img, plan.keys) < |plan.keys| {
      AbortedOutputs(img, stem, plan, converts);
    }
  }

  /** Some resize raises exactly when some bucket narrower than the image is
      below one pixel or gives a zero height. */
  lemma FailureIff(img: Image, keys: seq<int>)
    ensures FirstFailure(img, keys) < |keys| <==>
              exists w :: w in keys && img.width > w && (w < 1 || img.height * w < img.width)
  {
    if exists w :: w in keys && img.width > w && (w < 1 || img.height * w < img.width) {
      var w :| w in keys && img.width > w && (w < 1 || img.height * w < img.width);
      var j :| 0 <= j < |keys| && keys[j] == w;
      assert BucketSource(img, keys[j]).None?;
    }
    if FirstFailure(img, keys) < |keys| {
      assert keys[FirstFailure(img, keys)] in keys;
    }
  }

  lemma AbortedOutputs(img: Image, stem: string, plan: Plan, converts: (Image, OutPath) -> bool)
    requires plan.Valid()
    requires FirstFailure(img, plan.keys) < |plan.keys|
    ensures var o := ProcessedImage(img, stem, plan, converts);
            && !o.counted
            && |o.attempts| == FirstFailure(img, plan.keys)
            && (forall j :: 0 <= j < |o.attempts| ==>
                  o.attempts[j] == VariantAttempt(img, stem, plan.keys[j], plan, converts))
            && forall a :: a in o.attempts ==> a.path.dir in plan.dirs.Values
  {
    var o := ProcessedImage(img, stem, plan, converts);
    forall a | a in o.attempts
      ensures a.path.dir in plan.dirs.Values
    {
      var j :| 0 <= j < |o.attempts| && o.attempts[j] == a;
      assert a == VariantAttempt(img, stem, plan.keys[j], plan, converts);
    }
  }

  /** An image is counted exactly when every resize succeeds and the
      `originalsize` conversion returns True. */
  lemma CountedIff(img: Image, stem: string, plan: Plan, converts: (Image, OutPath) -> bool)
    requires plan.Valid()
    ensures ProcessedImage(img, stem, plan, converts).counted <==>
              FirstFailure(img, plan.keys) == |plan.keys|
              && converts(img, OutPath(plan.originalDir, OutputName(stem)))
  {
  }

  /** `successful_conversions` depends on the encoder only through the
      `originalsize` conversions: two encoders that agree there give the same
      count, however the bucket conversions fare. */
  lemma {:induction false} SuccessCountIgnoresVariants(files: seq<string>, plan: Plan, env1: Oracles, env2: Oracles)
    requires plan.Valid()
    requires env1.opens == env2.opens
    requires forall img, name :: env1.converts(img, OutPath(plan.originalDir, name))
                                 == env2.converts(img, OutPath(plan.originalDir, name))
    ensures SuccessCount(files, plan, env1) == SuccessCount(files, plan, env2)
  {
    if files != [] {
      SuccessCountIgnoresVariants(files[..|files| - 1], plan, env1, env2);
      var file := files[|files| - 1];
      match env1.opens(file)
      case None =>
      case Some(img) =>
        var stem := Listing.Stem(file);
        CountedIff(img, stem, plan, env1.converts);
        CountedIff(img, stem, plan, env2.converts);
    }
  }

  /** Whether each file is counted, in order. */
  function CountedFlags(files: seq<string>, plan: Plan, env: Oracles): (bs: seq<bool>)
    requires plan.Valid()
    ensures |bs| == |files|
    ensures forall i :: 0 <= i < |files| ==> bs[i] == FileOutcome(files[i], plan, env).counted
  {
    seq(|files|, i requires 0 <= i < |files| => FileOutcome(files[i], plan, env).counted)
  }

  /** The number of `true` entries, counted from the front. */
  function CountTrue(bs: seq<bool>): nat {
    if bs == [] then 0
    else CountTrue(bs[..|bs| - 1]) + (if bs[|bs| - 1] then 1 else 0)
  }

  lemma {:induction false} SuccessCountIsCountTrue(files: seq<string>, plan: Plan, env: Oracles)
    requires plan.Valid()
    ensures SuccessCount(files, plan, env) == CountTrue(CountedFlags(files, plan, env))
  {
    if files != [] {
      var init := files[..|files| - 1];
      SuccessCountIsCountTrue(init, plan, env);
      assert CountedFlags(init, plan, env) == CountedFlags(files, plan, env)[..|files| - 1];
    }
  }

  lemma {:induction false} CountTrueCardinality(bs: seq<bool>)
    ensures CountTrue(bs) == |set i | 0 <= i < |bs| && bs[i]|
  {
    if bs != [] {
      var init := bs[..|bs| - 1];
      CountTrueCardinality(init);
      var all := set i | 0 <= i < |bs| && bs[i];
      var prev := set i | 0 <= i < |init| && init[i];
      assert prev == all - {|bs| - 1};
      if bs[|bs| - 1] {
        assert all == prev + {|bs| - 1};
      } else {
        assert all == prev;
      }
    }
  }

  /** An encoder call that never returns True leaves the counter at zero. */
  lemma {:induction false} FailingEncoderCountsNothing(files: seq<string>, plan: Plan, env: Oracles)
    requires plan.Valid()
    requires forall img, path :: !env.converts(img, path)
    ensures SuccessCount(files, plan, env) == 0
  {
    if files != [] {
      FailingEncoderCountsNothing(files[..|files| - 1], plan, env);
      var file := files[|files| - 1];
      match env.opens(file)
      case None =>
      case Some(img) =>
        CountedIff(img, Listing.Stem(file), plan, env.converts);
    }
  }

  /** The counter equals the number of files whose outcome is counted. */
  lemma SuccessCountCounts(files: seq<string>, plan: Plan, env: Oracles)
    requires plan.Valid()
    ensures SuccessCount(files, plan, env)
            == |set i | 0 <= i < |files| && FileOutcome(files[i], plan, env).counted|
  {
    var bs := CountedFlags(files, plan, env);
    SuccessCountIsCountTrue(files, plan, env);
    CountTrueCardinality(bs);
    assert (set i | 0 <= i < |bs| && bs[i])
        == (set i | 0 <= i < |files| && FileOutcome(files[i], plan, env).counted);
  }

  /** A 2000x1000 image with widths 320, 640 and 960 yields 320x160, 640x320,
      960x480 and an original-size 2000x1000 output. */
  lemma WideImageScenario(plan: Plan, converts: (Image, OutPath) -> bool)
    requires plan.Valid() && plan.keys == [320, 640, 960]
    ensures var img := Image(2000, 1000, "RGB");
            var o := ProcessedImage(img, "img", plan, converts);
            && |o.attempts| == 4
            && o.attempts[0].encoded == Image(320, 160, "RGB")
            && o.attempts[1].encoded == Image(640, 320, "RGB")
            && o.attempts[2].encoded == Image(960, 480, "RGB")
            && o.attempts[3].encoded == img
            && o.attempts[3].path == OutPath(plan.originalDir, "img.webp")
  {
    var img := Image(2000, 1000, "RGB");
    assert ResizeImage(img, 320) == Some(Image(320, 160, "RGB"));
    assert ResizeImage(img, 640) == Some(Image(640, 320, "RGB"));
    assert ResizeImage(img, 960) == Some(Image(960, 480, "RGB"));
    assert FirstFailure(img, plan.keys) == 3 by {
      assert plan.keys[1..] == [640, 960] && plan.keys[1..][1..] == [960] && plan.keys[1..][1..][1..] == [];
    }
    var o := ProcessedImage(img, "img", plan, converts);
    assert o.attempts[0] == VariantAttempt(img, "img", 320, plan, converts);
    assert o.attempts[1] == VariantAttempt(img, "img", 640, plan, converts);
    assert o.attempts[2] == VariantAttempt(img, "img", 960, plan, converts);
  }

  /** A 200x100 image, narrower than every bucket, is written unscaled into
      each of them and into `originalsize`. */
  lemma NarrowImageScenario(plan: Plan, converts: (Image, OutPath) -> bool)
    requires plan.Valid() && plan.keys == [320, 640]
    ensures var img := Image(200, 100, "P");
            var o := ProcessedImage(img, "img", plan, converts);
            && |o.attempts| == 3
            && forall a :: a in o.attempts ==> a.encoded == Image(200, 100, "RGB")
  {
    var img := Image(200, 100, "P");
    assert FirstFailure(img, plan.keys) == 2 by {
      assert plan.keys[1..] == [640] && plan.keys[1..][1..] == [];
    }
    ProcessedImageOutputs(img, "img", plan, converts);
  }

  /** A 1000x1 image and a 320 bucket: the resized height would be 0, the
      resize raises, and the image gets neither its `originalsize` output nor
      a count. */
  lemma FlatImageScenario(plan: Plan, converts: (Image, OutPath) -> bool)
    requires plan.Valid() && plan.keys == [320]
    ensures var o := ProcessedImage(Image(1000, 1, "RGB"), "img", plan, converts);
            o.attempts == [] && !o.counted
  {
    assert FirstFailure(Image(1000, 1, "RGB"), plan.keys) == 0;
  }
}
