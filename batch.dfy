/** The top-level loop of main.py (lines 20-40): for every entry of the input
    directory, in the order the listing gives, an accepted image is squared
    into `out/<stem>.png` on a transparent canvas. The listing is a
    parameter, and so is `decode`, which stands for opening the file at a path
    and converting it to RGBA. Each call of `make_square_image` is recorded as
    a `Job`, and the output directory is a map from path to image that
    starts out as whatever `out` already held. */
module Batch {
  import opened Paths
  import opened Geometry
  import opened Raster

  /** A decoded RGBA image. */
  type Decoded = img: Image | img.Valid() witness Image(0, 0, [])

  /** One call `make_square_image(input, output)` made for entry `file`. */
  datatype Job = Job(file: string, input: string, output: string)

  function JobFor(file: string): Job
  {
    Job(file, InputPath(file), OutputPath(file))
  }

  /** The calls the loop makes for a listing, in order: each one is for an
      accepted entry, with that entry's input and output paths. */
  function Jobs(names: seq<string>): (jobs: seq<Job>)
    ensures forall j :: j in jobs ==> Supported(j.file) && j == JobFor(j.file)
  {
    if names == [] then []
    else
      var file := names[|names| - 1];
      Jobs(names[..|names| - 1]) + if Supported(file) then [JobFor(file)] else []
  }

  /** What the loop writes for entry `file`: its image squared onto a
      transparent canvas. */
  function Output(file: string, decode: string -> Decoded, blend: (Pixel, Pixel) -> Pixel): Image
  {
    Squared(decode(InputPath(file)), Transparent, blend)
  }

  /** The output directory after the loop, starting from its contents
      `init` before the run: each written path is mapped to the image it
      holds, and a later entry with the same output path replaces the earlier
      file. The run deletes nothing. */
  function Written(names: seq<string>, init: map<string, Image>, decode: string -> Decoded,
                   blend: (Pixel, Pixel) -> Pixel): (dir: map<string, Image>)
    ensures init.Keys <= dir.Keys
  {
    if names == [] then init
    else
      var file := names[|names| - 1];
      var before := Written(names[..|names| - 1], init, decode, blend);
      if Supported(file) then before[OutputPath(file) := Output(file, decode, blend)] else before
  }

  /** The loop itself: tests each entry, and for an accepted one builds both
      paths, squares the image and writes it. */
  method ProcessAll(names: seq<string>, init: map<string, Image>, decode: string -> Decoded,
                    blend: (Pixel, Pixel) -> Pixel)
    returns (jobs: seq<Job>, outDir: map<string, Image>)
    ensures jobs == Jobs(names)
    ensures outDir == Written(names, init, decode, blend)
  {
    jobs, outDir := [], init;
    for i := 0 to |names|
      invariant jobs == Jobs(names[..i])
      invariant outDir == Written(names[..i], init, decode, blend)
    {
      var file := names[i];
      if Supported(file) {
        var job := JobFor(file);
        jobs := jobs + [job];
        outDir := outDir[job.output := Squared(decode(job.input), Transparent, blend)];
      }
      Step(names, i, init, decode, blend);
    }
    assert names[..|names|] == names;
  }

  /** What one more entry adds to the calls and to the output directory. */
  lemma {:induction false} Step(names: seq<string>, i: int, init: map<string, Image>, decode: string -> Decoded,
                                blend: (Pixel, Pixel) -> Pixel)
    requires 0 <= i < |names|
    ensures Jobs(names[..i + 1]) == Jobs(names[..i]) + if Supported(names[i]) then [JobFor(names[i])] else []
    ensures Written(names[..i + 1], init, decode, blend) ==
      var before := Written(names[..i], init, decode, blend);
      if Supported(names[i]) then before[OutputPath(names[i]) := Output(names[i], decode, blend)] else before
  {
    assert names[..i + 1][..i] == names[..i];
  }

  /** Every call is the one built from a listed, accepted entry. */
  lemma {:induction false} JobsFromListing(names: seq<string>)
    ensures forall j :: j in Jobs(names) ==> j == JobFor(j.file) && Supported(j.file) && j.file in names
  {
    if names != [] {
      var pre, file := names[..|names| - 1], names[|names| - 1];
      JobsFromListing(pre);
      assert names == pre + [file];
      var tail := if Supported(file) then [JobFor(file)] else [];
      assert Jobs(names) == Jobs(pre) + tail;
      forall j | j in Jobs(names)
        ensures j.file in names
      {
        if j !in Jobs(pre) {
          assert j == JobFor(file);
        }
      }
    }
  }

  /** An entry gets a call exactly when it is listed and accepted. */
  lemma {:induction false} JobsSelect(names: seq<string>, n: string)
    ensures (exists k :: 0 <= k < |Jobs(names)| && Jobs(names)[k].file == n) <==> n in names && Supported(n)
  {
    JobsFromListing(names);
    if n in names && Supported(n) {
      var i :| 0 <= i < |names| && names[i] == n;
      JobFound(names, i);
    }
  }

  /** A listed, accepted entry gets a call. */
  lemma {:induction false} JobFound(names: seq<string>, i: int)
    requires 0 <= i < |names| && Supported(names[i])
    ensures exists k :: 0 <= k < |Jobs(names)| && Jobs(names)[k].file == names[i]
  {
    var pre := names[..|names| - 1];
    if i == |names| - 1 {
      assert Jobs(names) == Jobs(pre) + [JobFor(names[i])];
      assert Jobs(names)[|Jobs(pre)|].file == names[i];
    } else {
      assert names[i] == pre[i];
      JobFound(pre, i);
      var k :| 0 <= k < |Jobs(pre)| && Jobs(pre)[k].file == pre[i];
      assert Jobs(names)[k] == Jobs(pre)[k];
    }
  }

  /** The calls follow the listing order: the calls for a listing split in two
      are the calls for the first part followed by those for the second. */
  lemma {:induction false} JobsAppend(a: seq<string>, b: seq<string>)
    ensures Jobs(a + b) == Jobs(a) + Jobs(b)
  {
    if b != [] {
      var pre, file := b[..|b| - 1], b[|b| - 1];
      assert (a + b)[..|a + b| - 1] == a + pre;
      assert (a + b)[|a + b| - 1] == file;
      JobsAppend(a, pre);
    } else {
      assert a + b == a;
    }
  }

  /** Every output file of the batch is a `.png`, and for entries without a
      separator it sits in `out/` under the entry's stem. */
  lemma {:induction false} OutputsArePng(names: seq<string>)
    requires forall n :: n in names ==> '/' !in n
    ensures forall k :: 0 <= k < |Jobs(names)| ==>
      EndsWith(Jobs(names)[k].output, ".png") &&
      Jobs(names)[k].output == "out/" + Stem(Jobs(names)[k].file) + ".png"
  {
    forall k | 0 <= k < |Jobs(names)|
      ensures EndsWith(Jobs(names)[k].output, ".png")
      ensures Jobs(names)[k].output == "out/" + Stem(Jobs(names)[k].file) + ".png"
    {
      JobsFromListing(names);
      ListedNamePaths(Jobs(names)[k].file);
    }
  }

  /** A path is in the output directory after the run exactly when it was
      there before or some listed, accepted entry maps to it. */
  lemma {:induction false} WrittenPaths(names: seq<string>, init: map<string, Image>, decode: string -> Decoded,
                                        blend: (Pixel, Pixel) -> Pixel, p: string)
    ensures p in Written(names, init, decode, blend) <==>
      p in init || exists n :: n in names && Supported(n) && OutputPath(n) == p
  {
    if names != [] {
      var pre, file := names[..|names| - 1], names[|names| - 1];
      assert names == pre + [file];
      WrittenPaths(pre, init, decode, blend, p);
      if p in Written(names, init, decode, blend) && p !in init && !(Supported(file) && OutputPath(file) == p) {
        var n :| n in pre && Supported(n) && OutputPath(n) == p;
        assert n in names;
      }
    }
  }

  /** Every file the run adds to the output directory is a `.png`. */
  lemma {:induction false} NewFilesArePng(names: seq<string>, init: map<string, Image>, decode: string -> Decoded,
                                          blend: (Pixel, Pixel) -> Pixel)
    ensures forall q :: q in Written(names, init, decode, blend) && q !in init ==> EndsWith(q, ".png")
  {
    forall q | q in Written(names, init, decode, blend) && q !in init
      ensures EndsWith(q, ".png")
    {
      WrittenPaths(names, init, decode, blend, q);
      var n :| n in names && Supported(n) && OutputPath(n) == q;
    }
  }

  /** Some listed, accepted entry has output path `p`. */
  predicate SomeWriter(names: seq<string>, p: string)
  {
    SomeWhere(names, n => Supported(n) && OutputPath(n) == p)
  }

  /** Some element of `s` satisfies `w`. */
  predicate SomeWhere(s: seq<string>, w: string -> bool)
  {
    exists k :: 0 <= k < |s| && w(s[k])
  }

  /** If the last element does not satisfy `w`, a satisfying element lies
      in the rest. */
  lemma {:induction false} SomeWhereShrinks(s: seq<string>, w: string -> bool)
    requires s != [] && SomeWhere(s, w) && !w(s[|s| - 1])
    ensures SomeWhere(s[..|s| - 1], w)
  {
    var j :| 0 <= j < |s| && w(s[j]);
    assert s[..|s| - 1][j] == s[j];
  }

  /** Entry `k` is the last listed, accepted entry whose output path is `p`. */
  predicate LastWriter(names: seq<string>, k: int, p: string)
  {
    LastWhere(names, k, n => Supported(n) && OutputPath(n) == p)
  }

  /** `s[k]` is the last element of `s` that satisfies `w`. */
  predicate LastWhere(s: seq<string>, k: int, w: string -> bool)
  {
    0 <= k < |s| && w(s[k]) && forall m :: k < m < |s| ==> !w(s[m])
  }

  /** A path some entry writes holds the squared image of the last listed,
      accepted entry that maps to it: later entries overwrite earlier ones and
      whatever the directory held there before. */
  lemma {:induction false} WrittenByLast(names: seq<string>, init: map<string, Image>, decode: string -> Decoded,
                                         blend: (Pixel, Pixel) -> Pixel, p: string)
    requires SomeWriter(names, p)
    ensures p in Written(names, init, decode, blend)
    ensures exists k :: LastWriter(names, k, p) && Written(names, init, decode, blend)[p] == Output(names[k], decode, blend)
  {
    var pre, file := names[..|names| - 1], names[|names| - 1];
    var w := Written(names, init, decode, blend);
    if Supported(file) && OutputPath(file) == p {
      assert w[p] == Output(file, decode, blend);
      assert LastWriter(names, |names| - 1, p);
    } else {
      SomeWhereShrinks(names, n => Supported(n) && OutputPath(n) == p);
      WrittenByLast(pre, init, decode, blend, p);
      assert w[p] == Written(pre, init, decode, blend)[p];
      var k :| LastWriter(pre, k, p) && Written(pre, init, decode, blend)[p] == Output(pre[k], decode, blend);
      LastWhereExtends(names, k, n => Supported(n) && OutputPath(n) == p);
    }
  }

  /** An element satisfying `w` in all but the last element of `s` is one
      in `s`. */
  lemma {:induction false} SomeWhereGrows(s: seq<string>, w: string -> bool)
    requires s != []
    ensures SomeWhere(s[..|s| - 1], w) ==> SomeWhere(s, w)
  {
    if SomeWhere(s[..|s| - 1], w) {
      var j :| 0 <= j < |s| - 1 && w(s[..|s| - 1][j]);
      assert s[j] == s[..|s| - 1][j];
    }
  }

  /** Appending an element that does not satisfy `w` keeps the last one that
      does. */
  lemma {:induction false} LastWhereExtends(s: seq<string>, k: int, w: string -> bool)
    requires s != [] && LastWhere(s[..|s| - 1], k, w) && !w(s[|s| - 1])
    ensures LastWhere(s, k, w) && s[k] == s[..|s| - 1][k]
  {
    var pre := s[..|s| - 1];
    forall m | k < m < |s|
      ensures !w(s[m])
    {
      if m < |s| - 1 {
        assert s[m] == pre[m];
      }
    }
  }

  /** A file already in the output directory that no entry writes is left as
      it was. */
  lemma {:induction false} UntouchedKept(names: seq<string>, init: map<string, Image>, decode: string -> Decoded,
                                         blend: (Pixel, Pixel) -> Pixel, p: string)
    requires p in init && !SomeWriter(names, p)
    ensures p in Written(names, init, decode, blend) && Written(names, init, decode, blend)[p] == init[p]
  {
    if names != [] {
      var pre := names[..|names| - 1];
      SomeWhereGrows(names, n => Supported(n) && OutputPath(n) == p);
      UntouchedKept(pre, init, decode, blend, p);
    }
  }

  /** Every file the run writes is a square image whose side is the longer
      side of the image it was made from. */
  lemma {:induction false} WrittenAreSquare(names: seq<string>, init: map<string, Image>, decode: string -> Decoded,
                                            blend: (Pixel, Pixel) -> Pixel, p: string)
    requires SomeWriter(names, p)
    ensures p in Written(names, init, decode, blend)
    ensures Written(names, init, decode, blend)[p].Valid()
    ensures exists k ::
              LastWriter(names, k, p) &&
              var src, img := decode(InputPath(names[k])), Written(names, init, decode, blend)[p];
              img.width == img.height == Max(src.width, src.height)
  {
    WrittenByLast(names, init, decode, blend, p);
    var k :| LastWriter(names, k, p) && Written(names, init, decode, blend)[p] == Output(names[k], decode, blend);
    var src := decode(InputPath(names[k]));
    assert Written(names, init, decode, blend)[p] == Squared(src, Transparent, blend);
  }

  /** A listing with no accepted entry leads to no call and leaves the output
      directory as it was. */
  lemma {:induction false} NothingAccepted(names: seq<string>, init: map<string, Image>, decode: string -> Decoded,
                                           blend: (Pixel, Pixel) -> Pixel)
    requires forall n :: n in names ==> !Supported(n)
    ensures Jobs(names) == [] && Written(names, init, decode, blend) == init
  {
    if names != [] {
      var pre := names[..|names| - 1];
      assert forall n :: n in pre ==> n in names;
      NothingAccepted(pre, init, decode, blend);
    }
  }
}
