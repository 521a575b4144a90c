/** The run manifest `sourceset_info.txt` (sourcesetmaker.py:156-170), as the
    sequence of strings passed to `f.write`. Widths are listed through
    `sorted(args.widths)`: ascending, and a repeated width is listed again. */
module Manifest {
  import opened Text

  predicate Ascending(s: seq<int>) {
    forall i, j :: 0 <= i < j < |s| ==> s[i] <= s[j]
  }

  function Insert(x: int, s: seq<int>): (r: seq<int>)
    requires Ascending(s)
    ensures |r| == |s| + 1
    ensures r[0] == if s == [] || x <= s[0] then x else s[0]
    ensures Ascending(r)
    ensures multiset(r) == multiset(s) + multiset{x}
  {
    if s == [] || x <= s[0] then [x] + s
    else
      assert s == [s[0]] + s[1..];
      [s[0]] + Insert(x, s[1..])
  }

  /** Python's `sorted` on a list of ints. */
  function SortAscending(s: seq<int>): (r: seq<int>)
    ensures |r| == |s|
    ensures Ascending(r)
    ensures multiset(r) == multiset(s)
  {
    if s == [] then []
    else
      assert s == [s[0]] + s[1..];
      Insert(s[0], SortAscending(s[1..]))
  }

  /** The first element of a non-empty ascending list is its least element. */
  lemma AscendingHeadIsLeast(a: seq<int>, x: int)
    requires Ascending(a) && x in multiset(a)
    ensures a[0] <= x
  {
    var i :| 0 <= i < |a| && a[i] == x;
  }

  lemma TailsArePermutations(a: seq<int>, b: seq<int>)
    requires a != [] && b != [] && a[0] == b[0]
    requires multiset(a) == multiset(b)
    requires Ascending(a) && Ascending(b)
    ensures multiset(a[1..]) == multiset(b[1..])
    ensures Ascending(a[1..]) && Ascending(b[1..])
  {
    assert a == [a[0]] + a[1..] && b == [b[0]] + b[1..];
    assert multiset(a) == multiset{a[0]} + multiset(a[1..]);
    assert multiset(b) == multiset{b[0]} + multiset(b[1..]);
    assert multiset(a[1..]) == multiset(a) - multiset{a[0]};
    assert multiset(b[1..]) == multiset(b) - multiset{b[0]};
  }

  /** An ascending list is determined by its elements, so `SortAscending` is
      the one list `sorted` can return. */
  lemma {:induction false} AscendingPermutationUnique(a: seq<int>, b: seq<int>)
    requires Ascending(a) && Ascending(b)
    requires multiset(a) == multiset(b)
    ensures a == b
  {
    assert |a| == |multiset(a)| == |multiset(b)| == |b|;
    if a != [] {
      assert a[0] in multiset(a) && b[0] in multiset(b);
      AscendingHeadIsLeast(a, b[0]);
      AscendingHeadIsLeast(b, a[0]);
      TailsArePermutations(a, b);
      AscendingPermutationUnique(a[1..], b[1..]);
      assert a == [a[0]] + a[1..] && b == [b[0]] + b[1..];
    }
  }

  /** The line written for a width bucket (line 169). */
  function BucketLine(w: int): string {
    "  " + IntToString(w) + "/ - Images resized to " + IntToString(w) + "px wide\n"
  }

  /** The line written for the `originalsize` bucket (line 170). */
  const OriginalSizeLine: string := "  originalsize/ - Original size WebP conversions\n"

  /** The writes before the bucket lines (lines 159-167). */
  function Header(sourceFolder: string, outputFolder: string, widths: seq<int>,
                  quality: int, found: nat, successful: nat): seq<string>
  {
    [ "Source Set WebP Maker - Generated Files\n",
      "=======================================\n\n",
      "Source folder: " + sourceFolder + "\n",
      "Output folder: " + outputFolder + "\n",
      "Target widths: " + JoinInts(SortAscending(widths)) + "\n",
      "WebP quality: " + IntToString(quality) + "\n",
      "Images processed: " + IntToString(found) + "\n",
      "Successful conversions: " + IntToString(successful) + "\n\n",
      "Directory structure:\n" ]
  }

  const HeaderLength: nat := 9

  /** Everything written to the manifest, in order. */
  function ManifestWrites(sourceFolder: string, outputFolder: string, widths: seq<int>,
                          quality: int, found: nat, successful: nat): seq<string>
  {
    Header(sourceFolder, outputFolder, widths, quality, found, successful)
    + BucketLines(SortAscending(widths)) + [OriginalSizeLine]
  }

  /** Writing the manifest (lines 158-170): the header, then one line per
      element of `sorted(widths)`, then the `originalsize` line. */
  method WriteManifest(sourceFolder: string, outputFolder: string, widths: seq<int>,
                       quality: int, found: nat, successful: nat)
    returns (writes: seq<string>)
    ensures writes == ManifestWrites(sourceFolder, outputFolder, widths, quality, found, successful)
  {
    var header := Header(sourceFolder, outputFolder, widths, quality, found, successful);
    var lines := WriteBucketLines(SortAscending(widths));
    writes := header + lines + [OriginalSizeLine];
  }

  /** The loop of lines 168-169: one bucket line per width, in the given
      order. */
  method WriteBucketLines(sorted: seq<int>) returns (lines: seq<string>)
    ensures lines == BucketLines(sorted)
  {
    lines := [];
    for k := 0 to |sorted|
      invariant |lines| == k
      invariant forall i :: 0 <= i < k ==> lines[i] == BucketLine(sorted[i])
    {
      lines := lines + [BucketLine(sorted[k])];
    }
    BucketLinesPointwise(sorted, lines);
  }

  /** The shape of the manifest: nine header writes, one line per element of
      the width list in ascending order of width, and the `originalsize` line
      last. */
  lemma ManifestLayout(sourceFolder: string, outputFolder: string, widths: seq<int>,
                       quality: int, found: nat, successful: nat)
    ensures var writes := ManifestWrites(sourceFolder, outputFolder, widths, quality, found, successful);
            && |writes| == HeaderLength + |widths| + 1
            && (forall k :: 0 <= k < |widths| ==> writes[HeaderLength + k] == BucketLine(SortAscending(widths)[k]))
            && writes[|writes| - 1] == OriginalSizeLine
  {
    var header := Header(sourceFolder, outputFolder, widths, quality, found, successful);
    BodyLayout(header, SortAscending(widths));
  }

  lemma BodyLayout(header: seq<string>, sorted: seq<int>)
    requires |header| == HeaderLength
    ensures var writes := header + BucketLines(sorted) + [OriginalSizeLine];
            && |writes| == HeaderLength + |sorted| + 1
            && (forall k :: 0 <= k < |sorted| ==> writes[HeaderLength + k] == BucketLine(sorted[k]))
            && writes[|writes| - 1] == OriginalSizeLine
  {
  }

  /** Different widths get different bucket lines. */
  lemma BucketLineInjective(a: int, b: int)
    requires BucketLine(a) == BucketLine(b)
    ensures a == b
  {
    var sa, sb := IntToString(a), IntToString(b);
    assert |BucketLine(a)| == 2 * |sa| + 32;
    assert |BucketLine(b)| == 2 * |sb| + 32;
    assert BucketLine(a)[2..2 + |sa|] == sa;
    assert BucketLine(b)[2..2 + |sb|] == sb;
    IntToStringInjective(a, b);
  }

  function BucketLines(ws: seq<int>): (r: seq<string>)
    ensures |r| == |ws|
    ensures forall k :: 0 <= k < |ws| ==> r[k] == BucketLine(ws[k])
  {
    if ws == [] then [] else [BucketLine(ws[0])] + BucketLines(ws[1..])
  }

  /** A list of strings that has the bucket line of each width at its place
      is the list of bucket lines. */
  lemma BucketLinesPointwise(ws: seq<int>, lines: seq<string>)
    requires |lines| == |ws|
    requires forall i :: 0 <= i < |ws| ==> lines[i] == BucketLine(ws[i])
    ensures lines == BucketLines(ws)
  {
  }

  lemma BucketLinesCount(ws: seq<int>, w: int)
    ensures multiset(BucketLines(ws))[BucketLine(w)] == multiset(ws)[w]
  {
    var lines := BucketLines(ws);
    forall k | 0 <= k < |ws|
      ensures lines[k] == BucketLine(w) <==> ws[k] == w
    {
      if lines[k] == BucketLine(w) {
        BucketLineInjective(ws[k], w);
      }
    }
    CountUnderMatch(ws, lines, w, BucketLine(w));
  }

  /** Two lists of equal length that hold `x` and `y` at the same places hold
      them equally often. */
  lemma {:induction false} CountUnderMatch(xs: seq<int>, ys: seq<string>, x: int, y: string)
    requires |ys| == |xs|
    requires forall k :: 0 <= k < |xs| ==> (ys[k] == y <==> xs[k] == x)
    ensures multiset(ys)[y] == multiset(xs)[x]
  {
    if xs != [] {
      var n := |xs| - 1;
      CountUnderMatch(xs[..n], ys[..n], x, y);
      assert xs == xs[..n] + [xs[n]] && ys == ys[..n] + [ys[n]];
      assert multiset(xs) == multiset(xs[..n]) + multiset{xs[n]};
      assert multiset(ys) == multiset(ys[..n]) + multiset{ys[n]};
    }
  }

  /** The manifest has one bucket line per element of the width list: a width
      given twice is listed twice, and every given width is listed. */
  lemma ManifestListsEveryWidth(sourceFolder: string, outputFolder: string, widths: seq<int>,
                                quality: int, found: nat, successful: nat, w: int)
    ensures var writes := ManifestWrites(sourceFolder, outputFolder, widths, quality, found, successful);
            multiset(writes[HeaderLength..HeaderLength + |widths|])[BucketLine(w)] == multiset(widths)[w]
  {
    var writes := ManifestWrites(sourceFolder, outputFolder, widths, quality, found, successful);
    var header := Header(sourceFolder, outputFolder, widths, quality, found, successful);
    var lines := BucketLines(SortAscending(widths));
    assert writes == header + lines + [OriginalSizeLine];
    assert writes[HeaderLength..HeaderLength + |widths|] == lines;
    BucketLinesCount(SortAscending(widths), w);
  }
}
