/** Finding the source images: `SUPPORTED_FORMATS` (sourcesetmaker.py:16),
    `get_image_files` (sourcesetmaker.py:22-31) and the `stem` that names
    every output file. A folder is given by the names of its entries, in the
    order the file system lists them. */
module Listing {
  import opened Text

  const SupportedFormats: set<string> :=
    {".jpg", ".jpeg", ".png", ".webp", ".bmp", ".tiff", ".tif", ".gif"}

  /** The upper-cased spellings that the second glob of each iteration looks for. */
  const UpperFormats: set<string> := set e | e in SupportedFormats :: Upper(e)

  /** A dot followed by at least one lower-case letter. */
  predicate LowerExt(e: string) {
    |e| >= 2 && e[0] == '.' && forall k :: 1 <= k < |e| ==> 'a' <= e[k] <= 'z'
  }

  /** A dot followed by characters none of which is a dot. */
  predicate DotExt(p: string) {
    |p| >= 1 && p[0] == '.' && forall k :: 1 <= k < |p| ==> p[k] != '.'
  }

  lemma SupportedFormatsAreLower()
    ensures forall e :: e in SupportedFormats ==> LowerExt(e)
  {
  }

  /** The name matches one of the two globs run for `ext` (lines 28 and 29). */
  predicate MatchesFormat(name: string, ext: string) {
    EndsWith(name, ext) || EndsWith(name, Upper(ext))
  }

  /** The selection rule of `get_image_files`. */
  predicate IsImageName(name: string) {
    exists ext :: ext in SupportedFormats && MatchesFormat(name, ext)
  }

  /** Two dot-extensions that both end the same name are the same extension. */
  lemma {:induction false} DotExtsAtEndAgree(name: string, p: string, q: string)
    requires DotExt(p) && DotExt(q)
    requires EndsWith(name, p) && EndsWith(name, q)
    ensures p == q
  {
  }

  lemma LowerExtShapes(e: string)
    requires LowerExt(e)
    ensures DotExt(e) && DotExt(Upper(e))
    ensures 'A' <= Upper(e)[1] <= 'Z'
  {
    assert forall k :: 1 <= k < |e| ==> UpperChar(e[k]) != '.';
  }

  lemma UpperInjective(e1: string, e2: string)
    requires LowerExt(e1) && LowerExt(e2)
    requires Upper(e1) == Upper(e2)
    ensures e1 == e2
  {
    forall k | 0 <= k < |e1|
      ensures e1[k] == e2[k]
    {
      assert UpperChar(e1[k]) == Upper(e1)[k] == Upper(e2)[k] == UpperChar(e2[k]);
    }
  }

  /** A name is picked up by at most one of the sixteen globs. */
  lemma AtMostOnePattern(name: string, e1: string, e2: string, upper1: bool, upper2: bool)
    requires LowerExt(e1) && LowerExt(e2)
    requires EndsWith(name, if upper1 then Upper(e1) else e1)
    requires EndsWith(name, if upper2 then Upper(e2) else e2)
    ensures e1 == e2 && upper1 == upper2
  {
    LowerExtShapes(e1);
    LowerExtShapes(e2);
    var p1 := if upper1 then Upper(e1) else e1;
    var p2 := if upper2 then Upper(e2) else e2;
    DotExtsAtEndAgree(name, p1, p2);
    if upper1 && upper2 {
      UpperInjective(e1, e2);
    }
  }

  /** `folder.glob('*' + suffix)`: the entries whose name ends with `suffix`
      (pathlib's `*` also matches names that start with a dot). The model keeps
      the listing order; the script does not rely on any order. */
  function Glob(entries: seq<string>, suffix: string): (r: seq<string>)
    ensures forall n :: multiset(r)[n] == if EndsWith(n, suffix) then multiset(entries)[n] else 0
  {
    if entries == [] then []
    else
      assert entries == [entries[0]] + entries[1..];
      (if EndsWith(entries[0], suffix) then [entries[0]] else []) + Glob(entries[1..], suffix)
  }

  /** The entries `get_image_files` selects, in listing order. */
  function ImageNames(entries: seq<string>): (r: seq<string>)
    ensures forall n :: multiset(r)[n] == if IsImageName(n) then multiset(entries)[n] else 0
  {
    if entries == [] then []
    else
      assert entries == [entries[0]] + entries[1..];
      (if IsImageName(entries[0]) then [entries[0]] else []) + ImageNames(entries[1..])
  }

  /** An iteration order of the set `SUPPORTED_FORMATS`: each member once. */
  predicate IsEnumeration(order: seq<string>) {
    && (forall e :: e in SupportedFormats ==> e in order)
    && (forall i :: 0 <= i < |order| ==> order[i] in SupportedFormats)
    && (forall i, j :: 0 <= i < j < |order| ==> order[i] != order[j])
  }

  /** The name matches one of the first `i` extensions of `order`. */
  predicate MatchesBefore(name: string, order: seq<string>, i: nat)
    requires i <= |order|
  {
    exists j :: 0 <= j < i && MatchesFormat(name, order[j])
  }

  /** `get_image_files`: for each supported extension, in the set's iteration
      order, append the names matching it in lower case, then those matching it
      in upper case. Every image name of the folder comes out exactly as often
      as it is listed, and nothing else does, whatever the iteration order. */
  method GetImageFiles(entries: seq<string>, order: seq<string>) returns (files: seq<string>)
    requires IsEnumeration(order)
    ensures multiset(files) == multiset(ImageNames(entries))
  {
    EnumerationIsLower(order);
    files := [];
    for i := 0 to |order|
      invariant forall n :: multiset(files)[n] == if MatchesBefore(n, order, i) then multiset(entries)[n] else 0
    {
      var lower := Glob(entries, order[i]);
      var upper := Glob(entries, Upper(order[i]));
      GlobLoopStep(order, i, files, lower, upper, entries);
      files := files + lower + upper;
    }
    EnumerationCovers(order);
  }

  /** Every extension of an iteration order is a lower-case dot-extension. */
  lemma EnumerationIsLower(order: seq<string>)
    requires IsEnumeration(order)
    ensures forall k :: 0 <= k < |order| ==> LowerExt(order[k])
  {
    SupportedFormatsAreLower();
  }

  /** After the whole iteration order, the names matched are the image names. */
  lemma EnumerationCovers(order: seq<string>)
    requires IsEnumeration(order)
    ensures forall n :: MatchesBefore(n, order, |order|) <==> IsImageName(n)
  {
    forall n ensures MatchesBefore(n, order, |order|) <==> IsImageName(n) {
      if IsImageName(n) {
        var e :| e in SupportedFormats && MatchesFormat(n, e);
        var j :| 0 <= j < |order| && order[j] == e;
      }
    }
  }

  /** One iteration of the loop of `get_image_files`, for every name. */
  lemma GlobLoopStep(order: seq<string>, i: nat, files: seq<string>,
                     lower: seq<string>, upper: seq<string>, entries: seq<string>)
    requires forall k :: 0 <= k < |order| ==> LowerExt(order[k])
    requires forall j, k :: 0 <= j < k < |order| ==> order[j] != order[k]
    requires i < |order|
    requires forall n :: multiset(files)[n] == if MatchesBefore(n, order, i) then multiset(entries)[n] else 0
    requires lower == Glob(entries, order[i]) && upper == Glob(entries, Upper(order[i]))
    ensures forall n :: multiset(files + lower + upper)[n]
                        == if MatchesBefore(n, order, i + 1) then multiset(entries)[n] else 0
  {
    forall n
      ensures multiset(files + lower + upper)[n]
              == if MatchesBefore(n, order, i + 1) then multiset(entries)[n] else 0
    {
      if MatchesFormat(n, order[i]) {
        NoEarlierMatch(n, order, i);
      }
      GlobStep(n, order, i, files, lower, upper, entries);
    }
  }

  /** A name matching the current extension matched none of the earlier ones. */
  lemma NoEarlierMatch(name: string, order: seq<string>, i: nat)
    requires forall k :: 0 <= k < |order| ==> LowerExt(order[k])
    requires forall j, k :: 0 <= j < k < |order| ==> order[j] != order[k]
    requires i < |order| && MatchesFormat(name, order[i])
    ensures !MatchesBefore(name, order, i)
    ensures !(EndsWith(name, order[i]) && EndsWith(name, Upper(order[i])))
  {
    var ext := order[i];
    if MatchesBefore(name, order, i) {
      var j :| 0 <= j < i && MatchesFormat(name, order[j]);
      var e := order[j];
      var u1 := !EndsWith(name, e);
      var u2 := !EndsWith(name, ext);
      AtMostOnePattern(name, e, ext, u1, u2);
    }
    if EndsWith(name, ext) && EndsWith(name, Upper(ext)) {
      AtMostOnePattern(name, ext, ext, false, true);
    }
  }

  lemma MatchesBeforeStep(name: string, order: seq<string>, i: nat)
    requires i < |order|
    ensures MatchesBefore(name, order, i + 1) <==> MatchesBefore(name, order, i) || MatchesFormat(name, order[i])
  {
    if MatchesBefore(name, order, i + 1) && !MatchesFormat(name, order[i]) {
      var j :| 0 <= j < i + 1 && MatchesFormat(name, order[j]);
      assert j < i;
    }
  }

  /** One iteration of the loop of `get_image_files`, for one name. */
  lemma GlobStep(n: string, order: seq<string>, i: nat, files: seq<string>,
                 lower: seq<string>, upper: seq<string>, entries: seq<string>)
    requires i < |order|
    requires MatchesFormat(n, order[i]) ==>
               !MatchesBefore(n, order, i) && !(EndsWith(n, order[i]) && EndsWith(n, Upper(order[i])))
    requires multiset(files)[n] == if MatchesBefore(n, order, i) then multiset(entries)[n] else 0
    requires lower == Glob(entries, order[i]) && upper == Glob(entries, Upper(order[i]))
    ensures multiset(files + lower + upper)[n]
            == if MatchesBefore(n, order, i + 1) then multiset(entries)[n] else 0
  {
    MatchesBeforeStep(n, order, i);
    assert multiset(files + lower + upper)[n]
           == multiset(files)[n] + multiset(lower)[n] + multiset(upper)[n];
  }

  /** `name.rfind('.')`: the index of the last dot, or -1 when there is none. */
  function LastDot(name: string): (i: int)
    ensures -1 <= i < |name|
    ensures i >= 0 ==> name[i] == '.'
    ensures forall k :: i < k < |name| ==> name[k] != '.'
  {
    if |name| == 0 then -1
    else if name[|name| - 1] == '.' then |name| - 1
    else LastDot(name[..|name| - 1])
  }

  /** pathlib's `stem`: the name without its last suffix, where a suffix needs
      a dot that is neither the first nor the last character. */
  function Stem(name: string): (s: string)
    ensures |s| <= |name| && s == name[..|s|]
    ensures |s| < |name| <==> 0 < LastDot(name) < |name| - 1
    ensures |s| < |name| ==> |s| == LastDot(name)
  {
    var i := LastDot(name);
    if 0 < i < |name| - 1 then name[..i] else name
  }

  /** When a dot-extension ends a name, the name's last dot is where it starts. */
  lemma LastDotOfDotExt(name: string, p: string)
    requires DotExt(p) && EndsWith(name, p)
    ensures LastDot(name) == |name| - |p|
    ensures name[LastDot(name)..] == p
  {
    var i := LastDot(name);
    var d := |name| - |p|;
    assert name[d] == p[0] == '.';
  }

  /** The selection rule, stated on the suffix from the last dot: a name is
      selected exactly when that suffix is a supported extension written all
      in lower case or all in upper case. */
  lemma ImageNameBySuffix(name: string)
    ensures IsImageName(name) <==>
              LastDot(name) >= 0
              && (name[LastDot(name)..] in SupportedFormats || name[LastDot(name)..] in UpperFormats)
  {
    if IsImageName(name) {
      ImageNameHasFormatSuffix(name);
    }
    var i := LastDot(name);
    if i >= 0 && name[i..] in SupportedFormats {
      assert MatchesFormat(name, name[i..]);
    } else if i >= 0 && name[i..] in UpperFormats {
      var e :| e in SupportedFormats && Upper(e) == name[i..];
      assert MatchesFormat(name, e);
    }
  }

  lemma ImageNameHasFormatSuffix(name: string)
    requires IsImageName(name)
    ensures LastDot(name) >= 0
    ensures name[LastDot(name)..] in SupportedFormats || name[LastDot(name)..] in UpperFormats
  {
    SupportedFormatsAreLower();
    var e :| e in SupportedFormats && MatchesFormat(name, e);
    LowerExtShapes(e);
    if EndsWith(name, e) {
      LastDotOfDotExt(name, e);
    } else {
      LastDotOfDotExt(name, Upper(e));
    }
  }

  /** A suffix mixing lower- and upper-case letters is never selected. */
  lemma MixedCaseNotSelected(name: string, a: nat, b: nat)
    requires LastDot(name) >= 0
    requires LastDot(name) < a < |name| && LastDot(name) < b < |name|
    requires 'a' <= name[a] <= 'z' && 'A' <= name[b] <= 'Z'
    ensures !IsImageName(name)
  {
    ImageNameBySuffix(name);
    MixedCaseNotAFormat(name, LastDot(name), a, b);
  }

  lemma MixedCaseNotAFormat(name: string, i: nat, a: nat, b: nat)
    requires i <= a < |name| && i <= b < |name|
    requires 'a' <= name[a] <= 'z' && 'A' <= name[b] <= 'Z'
    ensures name[i..] !in SupportedFormats && name[i..] !in UpperFormats
  {
    var suffix := name[i..];
    if suffix in SupportedFormats {
      assert suffix[b - i] == name[b];
      NoCapitalIn(suffix, b - i);
    }
    if suffix in UpperFormats {
      assert suffix[a - i] == name[a];
      NoSmallIn(suffix, a - i);
    }
  }

  lemma NoCapitalIn(e: string, k: nat)
    requires e in SupportedFormats && k < |e|
    ensures !('A' <= e[k] <= 'Z')
  {
    SupportedFormatsAreLower();
  }

  lemma NoSmallIn(u: string, k: nat)
    requires u in UpperFormats && k < |u|
    ensures !('a' <= u[k] <= 'z')
  {
    var e :| e in SupportedFormats && u == Upper(e);
    assert u[k] == UpperChar(e[k]);
  }

  /** The stem of a selected name is the name without its extension, unless
      the extension is the whole name (a hidden file such as `.jpg`), which
      pathlib then keeps as the stem. */
  lemma StemOfImageName(name: string)
    requires IsImageName(name)
    ensures var i := LastDot(name);
            && i >= 0
            && name[i..] in SupportedFormats + UpperFormats
            && (i > 0 ==> Stem(name) + name[i..] == name)
            && (i == 0 ==> Stem(name) == name)
  {
    ImageNameBySuffix(name);
    var i := LastDot(name);
    var suffix := name[i..];
    assert name[..i] + suffix == name;
    FormatSuffixLength(suffix);
    StemBeforeSuffix(name, i);
  }

  /** When the last dot leaves at least one character after it, the stem is
      the name up to that dot, or the whole name when the dot comes first. */
  lemma StemBeforeSuffix(name: string, i: int)
    requires i == LastDot(name) && 0 <= i < |name| - 1
    ensures i > 0 ==> Stem(name) == name[..i]
    ensures i == 0 ==> Stem(name) == name
  {
  }

  /** Every spelling the globs look for is at least four characters long. */
  lemma FormatSuffixLength(suffix: string)
    requires suffix in SupportedFormats || suffix in UpperFormats
    ensures |suffix| >= 4
  {
    if suffix !in SupportedFormats {
      var e :| e in SupportedFormats && Upper(e) == suffix;
    }
  }

  lemma SelectionExamples()
    ensures IsImageName("photo.jpg") && IsImageName("photo.JPG")
    ensures !IsImageName("photo.Jpg")
    ensures Stem("photo.jpg") == "photo"
  {
    assert EndsWith("photo.jpg", ".jpg");
    assert Upper(".jpg") == ".JPG";
    assert EndsWith("photo.JPG", Upper(".jpg"));
    assert EndsWith("photo.Jpg", ".Jpg");
    LastDotOfDotExt("photo.Jpg", ".Jpg");
    MixedCaseNotSelected("photo.Jpg", 7, 6);
    LastDotOfDotExt("photo.jpg", ".jpg");
  }
}
