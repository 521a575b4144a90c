/** The output directory plan of `main` (sourcesetmaker.py:113-126): one
    directory per distinct target width, named by the width's decimal text,
    and the `originalsize` directory beside them. */
module Buckets {
  import opened Text

  /** `output_base / str(width)` */
  function WidthDir(root: string, width: int): string {
    root + "/" + IntToString(width)
  }

  /** `output_base / "originalsize"` */
  function OriginalDir(root: string): string {
    root + "/" + "originalsize"
  }

  /** The width directories of a list of widths, one per element. */
  function WidthDirs(root: string, widths: seq<int>): (r: seq<string>)
    ensures |r| == |widths|
    ensures forall i :: 0 <= i < |widths| ==> r[i] == WidthDir(root, widths[i])
  {
    seq(|widths|, i requires 0 <= i < |widths| => WidthDir(root, widths[i]))
  }

  lemma WidthDirsStep(root: string, widths: seq<int>, i: nat)
    requires i < |widths|
    ensures WidthDirs(root, widths[..i + 1]) == WidthDirs(root, widths[..i]) + [WidthDir(root, widths[i])]
  {
  }

  /** The dict `width_dirs` as a map: each listed width to its directory. */
  function WidthDirMap(root: string, widths: seq<int>): map<int, string>
  {
    map w | w in widths :: WidthDir(root, w)
  }

  lemma WidthDirMapStep(root: string, widths: seq<int>, i: nat)
    requires i < |widths|
    ensures WidthDirMap(root, widths[..i + 1]) == WidthDirMap(root, widths[..i])[widths[i] := WidthDir(root, widths[i])]
  {
    assert widths[..i + 1] == widths[..i] + [widths[i]];
  }

  predicate Distinct(xs: seq<int>) {
    forall i, j :: 0 <= i < j < |xs| ==> xs[i] != xs[j]
  }

  /** The index of the first occurrence of `x` in `xs`. */
  function FirstIndex(xs: seq<int>, x: int): (i: nat)
    requires x in xs
    ensures i < |xs| && xs[i] == x
    ensures forall j :: 0 <= j < i ==> xs[j] != x
  {
    if xs[0] == x then 0 else 1 + FirstIndex(xs[1..], x)
  }

  /** Appending to a list leaves the first occurrences of its elements where
      they were, and an element new to the list first occurs at the end. */
  lemma FirstIndexAppend(xs: seq<int>, w: int, x: int)
    requires x in xs + [w]
    ensures x in xs ==> FirstIndex(xs + [w], x) == FirstIndex(xs, x)
    ensures x !in xs ==> FirstIndex(xs + [w], x) == |xs|
  {
    var i := FirstIndex(xs + [w], x);
    if x in xs {
      var k := FirstIndex(xs, x);
      assert (xs + [w])[k] == x;
    }
  }

  /** The keys of the dict `width_dirs` in its iteration order: every width
      once, in the order of first occurrence, since a dict keeps the order in
      which keys were first inserted. */
  function Dedup(widths: seq<int>): (keys: seq<int>)
    ensures forall w :: w in keys <==> w in widths
    ensures Distinct(keys)
    ensures |keys| <= |widths|
    ensures forall i, j :: 0 <= i < j < |keys| ==> FirstIndex(widths, keys[i]) < FirstIndex(widths, keys[j])
  {
    if widths == [] then []
    else
      var init := widths[..|widths| - 1];
      var w := widths[|widths| - 1];
      assert widths == init + [w];
      var keys := Dedup(init);
      DedupOrderStep(init, w, keys);
      if w in keys then keys else keys + [w]
  }

  lemma DedupOrderStep(init: seq<int>, w: int, keys: seq<int>)
    requires forall x :: x in keys <==> x in init
    requires forall i, j :: 0 <= i < j < |keys| ==> FirstIndex(init, keys[i]) < FirstIndex(init, keys[j])
    ensures var r := if w in keys then keys else keys + [w];
            forall i, j :: 0 <= i < j < |r| ==> FirstIndex(init + [w], r[i]) < FirstIndex(init + [w], r[j])
  {
    var r := if w in keys then keys else keys + [w];
    forall i | 0 <= i < |keys|
      ensures FirstIndex(init + [w], keys[i]) == FirstIndex(init, keys[i])
    {
      FirstIndexAppend(init, w, keys[i]);
    }
    if w !in keys {
      FirstIndexAppend(init, w, w);
    }
  }

  lemma DedupStep(widths: seq<int>, i: nat)
    requires i < |widths|
    ensures Dedup(widths[..i + 1]) == if widths[i] in widths[..i] then Dedup(widths[..i])
                                      else Dedup(widths[..i]) + [widths[i]]
  {
    assert widths[..i + 1][..i] == widths[..i];
  }

  /** One iteration of the loop that fills `width_dirs`. */
  lemma PlanStep(root: string, widths: seq<int>, i: nat,
                 keys: seq<int>, dirs: map<int, string>, made: seq<string>)
    requires i < |widths|
    requires made == WidthDirs(root, widths[..i])
    requires keys == Dedup(widths[..i])
    requires dirs == WidthDirMap(root, widths[..i])
    ensures made + [WidthDir(root, widths[i])] == WidthDirs(root, widths[..i + 1])
    ensures (if widths[i] in dirs then keys else keys + [widths[i]]) == Dedup(widths[..i + 1])
    ensures dirs[widths[i] := WidthDir(root, widths[i])] == WidthDirMap(root, widths[..i + 1])
  {
    WidthDirsStep(root, widths, i);
    DedupStep(widths, i);
    WidthDirMapStep(root, widths, i);
  }

  /** The loop that fills `width_dirs` (lines 118-122), with the directories
      it asks to create (`made`, one per listed width, repeats included).
      Assigning a key that is already present keeps its place in the dict, so
      a repeated width adds no bucket. */
  method PlanBuckets(root: string, widths: seq<int>) returns (keys: seq<int>, dirs: map<int, string>, made: seq<string>)
    ensures made == WidthDirs(root, widths)
    ensures keys == Dedup(widths)
    ensures dirs == WidthDirMap(root, widths)
  {
    keys, dirs, made := [], map[], [];
    for i := 0 to |widths|
      invariant made == WidthDirs(root, widths[..i])
      invariant keys == Dedup(widths[..i])
      invariant dirs == WidthDirMap(root, widths[..i])
    {
      var w := widths[i];
      PlanStep(root, widths, i, keys, dirs, made);
      made := made + [WidthDir(root, w)];   // create_directory(width_dir)
      if w !in dirs {
        keys := keys + [w];
      }
      dirs := dirs[w := WidthDir(root, w)];
    }
    assert widths[..|widths|] == widths;
  }

  /** The last component of a width directory is the width's numeral: it
      reads back as the width. */
  lemma WidthDirName(root: string, width: int)
    ensures var d := WidthDir(root, width);
            && |d| > |root| + 1
            && d[..|root| + 1] == root + "/"
            && IsNumeral(d[|root| + 1..])
            && NumeralValue(d[|root| + 1..]) == width
  {
    var d := WidthDir(root, width);
    IntToStringRoundTrip(width);
    assert d[|root| + 1..] == IntToString(width);
  }

  /** A repeated width keeps the place of its first occurrence. */
  lemma DedupExample()
    ensures Dedup([640, 320, 640]) == [640, 320]
  {
    assert [640, 320, 640][..2] == [640, 320];
    assert [640, 320][..1] == [640];
    assert [640][..0] == [];
  }

  /** Two widths share a directory only if they are the same integer, and no
      width directory is the `originalsize` directory. */
  lemma WidthDirInjective(root: string, a: int, b: int)
    ensures WidthDir(root, a) == WidthDir(root, b) <==> a == b
    ensures WidthDir(root, a) != OriginalDir(root)
  {
    var n := |root| + 1;
    assert WidthDir(root, a)[n..] == IntToString(a);
    assert WidthDir(root, b)[n..] == IntToString(b);
    if WidthDir(root, a) == WidthDir(root, b) {
      IntToStringInjective(a, b);
    }
    assert OriginalDir(root)[n..] == "originalsize";
  }

  /** Planning gives exactly one directory per distinct width: the buckets are
      the distinct widths, and their directories are pairwise different and
      different from `originalsize`. */
  lemma OneDirectoryPerDistinctWidth(root: string, widths: seq<int>)
    ensures var keys := Dedup(widths);
            && (forall w :: w in keys <==> w in widths)
            && (forall i, j :: 0 <= i < j < |keys| ==> WidthDir(root, keys[i]) != WidthDir(root, keys[j]))
            && (forall i :: 0 <= i < |keys| ==> WidthDir(root, keys[i]) != OriginalDir(root))
  {
    var keys := Dedup(widths);
    forall i, j | 0 <= i < j < |keys|
      ensures WidthDir(root, keys[i]) != WidthDir(root, keys[j])
    {
      WidthDirInjective(root, keys[i], keys[j]);
    }
    forall i | 0 <= i < |keys|
      ensures WidthDir(root, keys[i]) != OriginalDir(root)
    {
      WidthDirInjective(root, keys[i], keys[i]);
    }
  }
}
