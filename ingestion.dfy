/** The upload pipeline of the viewer (`handleUploadComplete`, src/App.tsx):
    the picked files are ordered by name, the first one supplies the series
    metadata and body region, every file with pixel data becomes one display
    slice stretched by its own extremes and one layer of a flat volume
    normalised by the extremes of the whole series. */
module Ingestion {
  import opened Types
  import opened DicomParser
  import opened Canvas

  /** A picked file: its name and what the DICOM library makes of its bytes
      (None when it throws). */
  datatype DicomFile = DicomFile(name: string, parsed: Option<DataSet>)

  // ---------------------------------------------------------------------
  // Name order

  /** `a` sorts no later than `b` when the names are compared character by
      character, by Unicode code point; a proper prefix sorts first. */
  predicate NameLe(a: string, b: string)
    decreases |a|
  {
    |a| == 0 || (|b| > 0 && (a[0] < b[0] || (a[0] == b[0] && NameLe(a[1..], b[1..]))))
  }

  lemma {:induction false} NameLeTotal(a: string, b: string)
    ensures NameLe(a, b) || NameLe(b, a)
    decreases |a|
  {
    if |a| > 0 && |b| > 0 && a[0] == b[0] {
      NameLeTotal(a[1..], b[1..]);
    }
  }

  lemma {:induction false} NameLeTransitive(a: string, b: string, c: string)
    requires NameLe(a, b) && NameLe(b, c)
    ensures NameLe(a, c)
    decreases |a|
  {
    if |a| > 0 && a[0] == b[0] && b[0] == c[0] {
      NameLeTransitive(a[1..], b[1..], c[1..]);
    }
  }

  predicate SortedByName(s: seq<DicomFile>) {
    forall i, j :: 0 <= i < j < |s| ==> NameLe(s[i].name, s[j].name)
  }

  /** One step of the sort: `f` goes before the first file it does not sort
      after, so files with equal names keep their order. */
  function Insert(f: DicomFile, s: seq<DicomFile>): (r: seq<DicomFile>)
    ensures multiset(r) == multiset(s) + multiset{f}
    decreases |s|
  {
    if |s| == 0 then [f]
    else if NameLe(f.name, s[0].name) then [f] + s
    else
      assert s == [s[0]] + s[1..];
      [s[0]] + Insert(f, s[1..])
  }

  /** `files.sort((a, b) => a.name.localeCompare(b.name))`, with names
      compared by code point: a permutation of the files. */
  function SortByName(files: seq<DicomFile>): (r: seq<DicomFile>)
    ensures multiset(r) == multiset(files)
    decreases |files|
  {
    if |files| == 0 then []
    else
      assert files == [files[0]] + files[1..];
      Insert(files[0], SortByName(files[1..]))
  }

  lemma {:induction false} InsertSorted(f: DicomFile, s: seq<DicomFile>)
    requires SortedByName(s)
    ensures SortedByName(Insert(f, s))
    decreases |s|
  {
    if |s| == 0 {
    } else if NameLe(f.name, s[0].name) {
      var r := Insert(f, s);
      forall i, j | 0 <= i < j < |r| ensures NameLe(r[i].name, r[j].name) {
        if i == 0 && j > 1 {
          NameLeTransitive(f.name, s[0].name, s[j - 1].name);
        }
      }
    } else {
      NameLeTotal(f.name, s[0].name);
      InsertSorted(f, s[1..]);
      var t := Insert(f, s[1..]);
      var r := Insert(f, s);
      assert r == [s[0]] + t;
      forall x | x in t ensures NameLe(s[0].name, x.name) {
        assert x in multiset(t);
        if x != f {
          assert x in multiset(s[1..]);
          var k :| 0 <= k < |s[1..]| && s[1..][k] == x;
          assert s[k + 1] == x;
        }
      }
      forall i, j | 0 <= i < j < |r| ensures NameLe(r[i].name, r[j].name) {
        if i == 0 {
          assert r[j] == t[j - 1] && r[j] in t;
        } else {
          assert r[i] == t[i - 1] && r[j] == t[j - 1];
        }
      }
    }
  }

  /** The sorted files are in name order. */
  lemma {:induction false} SortByNameSorted(files: seq<DicomFile>)
    ensures SortedByName(SortByName(files))
    decreases |files|
  {
    if |files| > 0 {
      SortByNameSorted(files[1..]);
      InsertSorted(files[0], SortByName(files[1..]));
    }
  }

  /** The first sorted file is one of the picked files, and its name sorts
      no later than any other. */
  lemma SortedFirstIsSmallest(files: seq<DicomFile>)
    requires |files| > 0
    ensures SortByName(files)[0] in files
    ensures forall i :: 0 <= i < |files| ==> NameLe(SortByName(files)[0].name, files[i].name)
  {
    var r := SortByName(files);
    SortByNameSorted(files);
    assert r[0] in multiset(files);
    forall i | 0 <= i < |files| ensures NameLe(r[0].name, files[i].name) {
      assert files[i] in multiset(r);
      var k :| 0 <= k < |r| && r[k] == files[i];
      if k == 0 {
        NameLeTotal(r[0].name, r[0].name);
      }
    }
  }

  // ---------------------------------------------------------------------
  // Frames: the files that carry pixel data

  /** One pixel-bearing file: its samples and the canvas size it is drawn
      at. */
  datatype Frame = Frame(samples: seq<Sample>, width: nat, height: nat)

  /** `n || 512` for a decoded dimension: absent and zero both give 512. */
  function DimOr512(d: Option<nat>): (r: nat)
    ensures r > 0
    ensures d.Some? && d.value != 0 ==> r == d.value
  {
    if d.Some? && d.value != 0 then d.value else 512
  }

  /** What one file of the loop yields: nothing when `getPixelData` gives
      null, otherwise its samples, drawn `columns || 512` wide and
      `rows || 512` high. */
  function FrameOf(f: DicomFile): Option<Frame> {
    match GetPixelData(f.parsed)
    case None => None
    case Some(px) =>
      var md := ParseDicomFile(f.parsed);
      Some(Frame(px, DimOr512(md.columns), DimOr512(md.rows)))
  }

  /** The frames of a list of files, in list order. */
  function Frames(files: seq<DicomFile>): seq<Frame>
    decreases |files|
  {
    if |files| == 0 then []
    else
      var last := FrameOf(files[|files| - 1]);
      Frames(files[..|files| - 1]) + (if last.Some? then [last.value] else [])
  }

  /** A file yields a frame exactly when it parses and has a pixel-data
      element; the frame's samples never outnumber its pixels, so each
      sample has a place on the file's own canvas. */
  lemma FrameOfFits(f: DicomFile)
    ensures FrameOf(f).Some? <==> f.parsed.Some? && f.parsed.value.pixelData.Some?
    ensures FrameOf(f).Some? ==>
      var fr := FrameOf(f).value;
      |fr.samples| <= fr.width * fr.height
  {
    if FrameOf(f).Some? {
      var ds := f.parsed.value;
      var fr := FrameOf(f).value;
      var n := DimOrZero(ds.rows) * DimOrZero(ds.columns);
      if DimOrZero(ds.rows) != 0 && DimOrZero(ds.columns) != 0 {
        assert fr.width == DimOrZero(ds.columns) && fr.height == DimOrZero(ds.rows);
        assert n == fr.width * fr.height;
      } else {
        assert n == 0;
      }
    }
  }

  /** Frames distribute over concatenation. */
  lemma {:induction false} FramesAppend(a: seq<DicomFile>, b: seq<DicomFile>)
    ensures Frames(a + b) == Frames(a) + Frames(b)
    decreases |b|
  {
    if |b| == 0 {
      assert a + b == a;
    } else {
      FramesAppend(a, b[..|b| - 1]);
      assert (a + b)[..|a + b| - 1] == a + b[..|b| - 1];
    }
  }

  /** A file without pixel data adds neither a slice nor a layer, wherever it
      sits. */
  lemma NoPixelDataSkipped(a: seq<DicomFile>, f: DicomFile, b: seq<DicomFile>)
    requires FrameOf(f).None?
    ensures Frames(a + [f] + b) == Frames(a + b)
  {
    FramesAppend(a + [f], b);
    FramesAppend(a, [f]);
    FramesAppend(a, b);
    assert [f][..0] == [];
  }

  /** A frame belongs to the list exactly when some file yields it. */
  lemma {:induction false} FramesMembership(files: seq<DicomFile>, fr: Frame)
    ensures fr in Frames(files) <==> exists i :: 0 <= i < |files| && FrameOf(files[i]) == Some(fr)
    decreases |files|
  {
    if |files| > 0 {
      var init := files[..|files| - 1];
      FramesMembership(init, fr);
      if fr in Frames(init) {
        var i :| 0 <= i < |init| && FrameOf(init[i]) == Some(fr);
        assert files[i] == init[i];
      }
      if i :| 0 <= i < |files| && FrameOf(files[i]) == Some(fr) {
        if i < |init| {
          assert init[i] == files[i];
        }
      }
    }
  }

  /** The positions of the files that have pixel data. */
  function PixelFileIndices(files: seq<DicomFile>): set<int> {
    set i | 0 <= i < |files| && FrameOf(files[i]).Some?
  }

  /** Extending the list by one file adds its position exactly when it has
      pixel data. */
  lemma PixelFileIndicesSnoc(files: seq<DicomFile>)
    requires |files| > 0
    ensures var init, n := files[..|files| - 1], |files| - 1;
      && PixelFileIndices(files) ==
        PixelFileIndices(init) + (if FrameOf(files[n]).Some? then {n} else {})
      && n !in PixelFileIndices(init)
  {
    var init, n := files[..|files| - 1], |files| - 1;
    assert forall i :: 0 <= i < n ==> init[i] == files[i];
  }

  /** The depth counts the files with pixel data: never more than the
      files, all of them exactly when every file has pixel data, none
      exactly when no file has. */
  lemma {:induction false} FramesCount(files: seq<DicomFile>)
    ensures |Frames(files)| == |PixelFileIndices(files)|
    ensures |Frames(files)| <= |files|
    ensures |Frames(files)| == |files| <==> forall i :: 0 <= i < |files| ==> FrameOf(files[i]).Some?
    ensures |Frames(files)| == 0 <==> forall i :: 0 <= i < |files| ==> FrameOf(files[i]).None?
    decreases |files|
  {
    if |files| > 0 {
      var init := files[..|files| - 1];
      FramesCount(init);
      assert forall i :: 0 <= i < |init| ==> init[i] == files[i];
    }
    FramesDepth(files);
  }

  /** One frame per file with pixel data. */
  lemma {:induction false} FramesDepth(files: seq<DicomFile>)
    ensures |Frames(files)| == |PixelFileIndices(files)|
    decreases |files|
  {
    if |files| > 0 {
      var init, n := files[..|files| - 1], |files| - 1;
      FramesDepth(init);
      PixelFileIndicesSnoc(files);
      if FrameOf(files[n]).Some? {
        assert |PixelFileIndices(init) + {n}| == |PixelFileIndices(init)| + 1;
      } else {
        assert PixelFileIndices(files) == PixelFileIndices(init);
      }
    } else {
      assert PixelFileIndices(files) == {};
    }
  }

  /** The first frame comes from the first file with pixel data. */
  lemma {:induction false} FirstFrame(files: seq<DicomFile>)
    requires |Frames(files)| > 0
    ensures exists i ::
      && 0 <= i < |files|
      && FrameOf(files[i]) == Some(Frames(files)[0])
      && forall j :: 0 <= j < i ==> FrameOf(files[j]).None?
    decreases |files|
  {
    var init := files[..|files| - 1];
    if |Frames(init)| > 0 {
      FirstFrame(init);
      var i :| 0 <= i < |init| && FrameOf(init[i]) == Some(Frames(init)[0]) &&
        forall j :: 0 <= j < i ==> FrameOf(init[j]).None?;
      assert files[i] == init[i];
      assert forall j :: 0 <= j < i ==> files[j] == init[j];
    } else {
      FramesCount(init);
      assert forall j :: 0 <= j < |init| ==> files[j] == init[j];
      assert FrameOf(files[|files| - 1]) == Some(Frames(files)[0]);
    }
  }

  /** Slices and layers follow name order, not upload order: slice 0 and
      layer 0 come from the file with the smallest name among those with
      pixel data. */
  lemma FirstLayerHasSmallestName(files: seq<DicomFile>)
    requires |Frames(SortByName(files))| > 0
    ensures exists f ::
      && f in files
      && FrameOf(f) == Some(Frames(SortByName(files))[0])
      && forall i :: 0 <= i < |files| && FrameOf(files[i]).Some? ==> NameLe(f.name, files[i].name)
  {
    var sorted := SortByName(files);
    SortByNameSorted(files);
    FirstFrame(sorted);
    var k :| 0 <= k < |sorted| && FrameOf(sorted[k]) == Some(Frames(sorted)[0]) &&
      forall j :: 0 <= j < k ==> FrameOf(sorted[j]).None?;
    assert sorted[k] in multiset(files);
    assert sorted[k] in files;
    forall i | 0 <= i < |files| && FrameOf(files[i]).Some?
      ensures NameLe(sorted[k].name, files[i].name)
    {
      assert files[i] in multiset(sorted);
      var m :| 0 <= m < |sorted| && sorted[m] == files[i];
      assert m >= k;
      if m == k {
        NameLeTotal(sorted[k].name, sorted[k].name);
      } else {
        assert NameLe(sorted[k].name, sorted[m].name);
      }
    }
  }

  // ---------------------------------------------------------------------
  // Extremes

  /** The least sample, found the way the code's loops find it: a running
      minimum that starts above every sample (None stands for `Infinity`). */
  function MinOf(s: seq<Sample>): (m: Option<Sample>)
    ensures m.None? <==> |s| == 0
    decreases |s|
  {
    if |s| == 0 then None
    else
      var m, v := MinOf(s[..|s| - 1]), s[|s| - 1];
      if m.None? || v < m.value then Some(v) else m
  }

  /** The greatest sample, as a running maximum from `-Infinity`. */
  function MaxOf(s: seq<Sample>): (m: Option<Sample>)
    ensures m.None? <==> |s| == 0
    decreases |s|
  {
    if |s| == 0 then None
    else
      var m, v := MaxOf(s[..|s| - 1]), s[|s| - 1];
      if m.None? || v > m.value then Some(v) else m
  }

  /** The running minimum is a sample, and no sample is below it. */
  lemma {:induction false} MinOfBounds(s: seq<Sample>)
    ensures MinOf(s).Some? ==> MinOf(s).value in s && forall i :: 0 <= i < |s| ==> MinOf(s).value <= s[i]
    decreases |s|
  {
    if |s| > 0 {
      var t := s[..|s| - 1];
      MinOfBounds(t);
      if MinOf(t).Some? {
        var k :| 0 <= k < |t| && t[k] == MinOf(t).value;
        assert s[k] == t[k];
      }
      forall i | 0 <= i < |s| ensures MinOf(s).value <= s[i] {
        if i < |t| {
          assert s[i] == t[i];
        }
      }
    }
  }

  /** The running maximum is a sample, and no sample is above it. */
  lemma {:induction false} MaxOfBounds(s: seq<Sample>)
    ensures MaxOf(s).Some? ==> MaxOf(s).value in s && forall i :: 0 <= i < |s| ==> s[i] <= MaxOf(s).value
    decreases |s|
  {
    if |s| > 0 {
      var t := s[..|s| - 1];
      MaxOfBounds(t);
      if MaxOf(t).Some? {
        var k :| 0 <= k < |t| && t[k] == MaxOf(t).value;
        assert s[k] == t[k];
      }
      forall i | 0 <= i < |s| ensures s[i] <= MaxOf(s).value {
        if i < |t| {
          assert s[i] == t[i];
        }
      }
    }
  }

  /** The extremes of a non-empty sequence are ordered. */
  lemma MinLeMax(s: seq<Sample>)
    requires |s| > 0
    ensures MinOf(s).value <= MaxOf(s).value
  {
    MinOfBounds(s);
    MaxOfBounds(s);
    assert MinOf(s).value <= s[0] <= MaxOf(s).value;
  }

  /** `max - min || 1`: the spread of the samples, or 1 when they are all
      equal, so it is never zero. */
  function RangeOr1(lo: int, hi: int): (r: int)
    requires lo <= hi
    ensures r > 0
    ensures hi - lo <= r && (lo < hi ==> r == hi - lo)
  {
    if hi - lo == 0 then 1 else hi - lo
  }

  // ---------------------------------------------------------------------
  // Display slices: each stretched by its own extremes

  /** `((v - min) / range) * 255`. */
  function ToByte(lo: int, range: int): Sample -> real
    requires range > 0
  {
    v => (v - lo) as real / range as real * 255.0
  }

  /** An RGBA buffer of `len` values holding one grey pixel per sample
      (`byte` of it in red, green and blue, 255 in alpha) and zeros after
      the last sample. */
  function RgbaBuffer(s: seq<Sample>, byte: Sample -> real, len: nat): (r: seq<real>)
    ensures |r| == len
  {
    seq(len, p requires 0 <= p < len =>
      if p / 4 < |s| then (if p % 4 == 3 then 255.0 else byte(s[p / 4])) else 0.0)
  }

  /** The stretch of one slice: its least sample to 0, its greatest to 255. */
  function SliceStretch(s: seq<Sample>): Sample -> real
    requires |s| > 0
  {
    MinLeMax(s);
    var lo, hi := MinOf(s).value, MaxOf(s).value;
    ToByte(lo, RangeOr1(lo, hi))
  }

  /** The display slice of a frame: a `width` × `height` RGBA image. */
  function SliceImage(fr: Frame): seq<real> {
    var len := 4 * fr.width * fr.height;
    if |fr.samples| == 0 then seq(len, _ => 0.0)
    else RgbaBuffer(fr.samples, SliceStretch(fr.samples), len)
  }

  /** Between the extremes the stretch lands in [0, 255], the least value
      at 0 and the greatest at 255 when they differ. */
  lemma ToByteEnds(lo: Sample, hi: Sample, v: Sample)
    requires lo <= v <= hi
    ensures 0.0 <= ToByte(lo, RangeOr1(lo, hi))(v) <= 255.0
    ensures v == lo ==> ToByte(lo, RangeOr1(lo, hi))(v) == 0.0
    ensures lo < hi && v == hi ==> ToByte(lo, RangeOr1(lo, hi))(v) == 255.0
  {
    var range := RangeOr1(lo, hi);
    DivideInUnit((v - lo) as real, range as real);
  }

  /** The stretch keeps the order of the samples. */
  lemma ToByteMonotone(lo: int, range: int, v: Sample, w: Sample)
    requires range > 0 && v <= w
    ensures ToByte(lo, range)(v) <= ToByte(lo, range)(w)
  {
    DivideMonotone((v - lo) as real, (w - lo) as real, range as real);
  }

  /** Every sample of a slice is stretched into [0, 255], and the stretch
      keeps the order of the samples. */
  lemma SliceStretchInRange(s: seq<Sample>, v: Sample, w: Sample)
    requires |s| > 0 && v in s
    ensures 0.0 <= SliceStretch(s)(v) <= 255.0
    ensures v <= w ==> SliceStretch(s)(v) <= SliceStretch(s)(w)
  {
    MinOfBounds(s);
    MaxOfBounds(s);
    var lo, hi := MinOf(s).value, MaxOf(s).value;
    ToByteEnds(lo, hi, v);
    if v <= w {
      ToByteMonotone(lo, RangeOr1(lo, hi), v, w);
    }
  }

  /** The least sample of a slice is drawn black, the greatest white unless
      every sample is the same. */
  lemma SliceStretchEnds(s: seq<Sample>)
    requires |s| > 0
    ensures SliceStretch(s)(MinOf(s).value) == 0.0
    ensures MinOf(s).value < MaxOf(s).value ==> SliceStretch(s)(MaxOf(s).value) == 255.0
  {
    MinLeMax(s);
    var lo, hi := MinOf(s).value, MaxOf(s).value;
    ToByteEnds(lo, hi, lo);
    ToByteEnds(lo, hi, hi);
  }

  /** A slice whose samples are all equal is drawn black everywhere. */
  lemma ConstantSliceIsBlack(s: seq<Sample>)
    requires |s| > 0
    requires forall i :: 0 <= i < |s| ==> s[i] == s[0]
    ensures forall i :: 0 <= i < |s| ==> SliceStretch(s)(s[i]) == 0.0
  {
    MinOfBounds(s);
    MaxOfBounds(s);
    var lo, hi := MinOf(s).value, MaxOf(s).value;
    assert lo == s[0] && hi == s[0];
    ToByteEnds(lo, hi, lo);
  }

  /** A display slice has four values per canvas pixel. */
  lemma SliceImageLength(fr: Frame)
    ensures |SliceImage(fr)| == 4 * (fr.width * fr.height)
  {
  }

  /** In the display slice of a frame that fits its canvas, pixel `i` is
      sample `i` stretched into [0, 255], written to red, green and blue,
      with alpha 255. */
  lemma SliceImageSample(fr: Frame, i: nat)
    requires |fr.samples| <= fr.width * fr.height && i < |fr.samples|
    ensures var img, v := SliceImage(fr), SliceStretch(fr.samples)(fr.samples[i]);
      && 4 * i + 3 < |img|
      && img[4 * i] == v && img[4 * i + 1] == v && img[4 * i + 2] == v && img[4 * i + 3] == 255.0
      && 0.0 <= v <= 255.0
  {
    SliceImageLength(fr);
    SliceStretchInRange(fr.samples, fr.samples[i], fr.samples[i]);
  }

  /** Every value past the last sample's pixel stays 0. */
  lemma SliceImagePastSamples(fr: Frame, p: nat)
    requires 4 * |fr.samples| <= p < |SliceImage(fr)|
    ensures SliceImage(fr)[p] == 0.0
  {
  }

  /** `x / y` lies in [0, 1] when `0 <= x <= y`. */
  lemma DivideInUnit(x: real, y: real)
    requires 0.0 <= x <= y && y > 0.0
    ensures 0.0 <= x / y <= 1.0
  {
    assert x / y * y == x;
  }

  /** Dividing by a positive number keeps order. */
  lemma DivideMonotone(x: real, z: real, y: real)
    requires x <= z && y > 0.0
    ensures x / y <= z / y
  {
    assert z / y - x / y == (z - x) / y;
  }

  // ---------------------------------------------------------------------
  // The volume: every layer normalised by the extremes of the whole series

  /** Every sample of every frame, frame after frame. */
  function AllSamples(frames: seq<Frame>): seq<Sample>
    decreases |frames|
  {
    if |frames| == 0 then []
    else AllSamples(frames[..|frames| - 1]) + frames[|frames| - 1].samples
  }

  lemma {:induction false} AllSamplesMembership(frames: seq<Frame>, z: nat, i: nat)
    requires z < |frames| && i < |frames[z].samples|
    ensures frames[z].samples[i] in AllSamples(frames)
    decreases |frames|
  {
    var init := frames[..|frames| - 1];
    if z < |init| {
      assert init[z] == frames[z];
      AllSamplesMembership(init, z, i);
    } else {
      var all := AllSamples(frames);
      assert all[|AllSamples(init)| + i] == frames[z].samples[i];
    }
  }

  /** `(v - globalMin) / range`. */
  function Normalize(lo: int, range: int): Sample -> real
    requires range > 0
  {
    v => (v - lo) as real / range as real
  }

  /** The normalisation of the volume, by the extremes of all samples of all
      slices. With no sample at all nothing is normalised, and the divisor
      taken then is immaterial. */
  function GlobalNorm(frames: seq<Frame>): Sample -> real {
    var all := AllSamples(frames);
    if |all| == 0 then Normalize(0, 1)
    else
      MinLeMax(all);
      var lo, hi := MinOf(all).value, MaxOf(all).value;
      Normalize(lo, RangeOr1(lo, hi))
  }

  /** One layer of `n` values: the normalised samples, then zeros. */
  function Layer(s: seq<Sample>, norm: Sample -> real, n: nat): (r: seq<real>)
    ensures |r| == n
  {
    seq(n, i requires 0 <= i < n => if i < |s| then norm(s[i]) else 0.0)
  }

  /** The volume buffer: one layer of `n` values per frame, in frame order. */
  function Volume(frames: seq<Frame>, norm: Sample -> real, n: nat): (r: seq<real>)
    ensures |r| == |frames| * n
    decreases |frames|
  {
    if |frames| == 0 then []
    else Volume(frames[..|frames| - 1], norm, n) + Layer(frames[|frames| - 1].samples, norm, n)
  }

  /** Sample `i` of layer `z` lands at `z·n + i`; a position past the layer's
      samples holds 0. */
  lemma {:induction false} VolumeAt(frames: seq<Frame>, norm: Sample -> real, n: nat, z: nat, i: nat)
    requires z < |frames| && i < n
    ensures z * n + i < |Volume(frames, norm, n)|
    ensures Volume(frames, norm, n)[z * n + i] ==
      if i < |frames[z].samples| then norm(frames[z].samples[i]) else 0.0
    decreases |frames|
  {
    var d := |frames|;
    var init := frames[..d - 1];
    if z < d - 1 {
      assert init[z] == frames[z];
      VolumeAt(init, norm, n, z, i);
    } else {
      assert |Volume(init, norm, n)| == z * n;
    }
  }

  /** Each layer's samples fit in `n` values. */
  predicate AllFit(frames: seq<Frame>, n: nat) {
    forall z :: 0 <= z < |frames| ==> |frames[z].samples| <= n
  }

  /** The global normalisation maps every sample of the series into [0, 1],
      the least to 0 and the greatest to 1 unless all are equal. */
  lemma GlobalNormEnds(frames: seq<Frame>, v: Sample)
    requires v in AllSamples(frames)
    ensures var all := AllSamples(frames);
      && 0.0 <= GlobalNorm(frames)(v) <= 1.0
      && GlobalNorm(frames)(MinOf(all).value) == 0.0
      && (MinOf(all).value < MaxOf(all).value ==> GlobalNorm(frames)(MaxOf(all).value) == 1.0)
  {
    var all := AllSamples(frames);
    MinOfBounds(all);
    MaxOfBounds(all);
    var lo, hi := MinOf(all).value, MaxOf(all).value;
    NormalizeEnds(lo, hi, v);
    NormalizeEnds(lo, hi, lo);
    NormalizeEnds(lo, hi, hi);
  }

  lemma NormalizeEnds(lo: Sample, hi: Sample, v: Sample)
    requires lo <= v <= hi
    ensures 0.0 <= Normalize(lo, RangeOr1(lo, hi))(v) <= 1.0
    ensures v == lo ==> Normalize(lo, RangeOr1(lo, hi))(v) == 0.0
    ensures lo < hi && v == hi ==> Normalize(lo, RangeOr1(lo, hi))(v) == 1.0
  {
    DivideInUnit((v - lo) as real, RangeOr1(lo, hi) as real);
  }

  /** Every value of the volume lies in [0, 1]. */
  lemma VolumeInUnit(frames: seq<Frame>, n: nat, p: nat)
    requires p < |Volume(frames, GlobalNorm(frames), n)|
    ensures 0.0 <= Volume(frames, GlobalNorm(frames), n)[p] <= 1.0
  {
    var z, i := p / n, p % n;
    LayerPosition(p, n, |frames|);
    VolumeAt(frames, GlobalNorm(frames), n, z, i);
    if i < |frames[z].samples| {
      AllSamplesMembership(frames, z, i);
      GlobalNormEnds(frames, frames[z].samples[i]);
    }
  }

  /** Two equal raw samples get equal volume values, even on different
      slices whose own extremes differ. */
  lemma EqualSamplesEqualValues(frames: seq<Frame>, n: nat, z1: nat, i1: nat, z2: nat, i2: nat)
    requires z1 < |frames| && i1 < |frames[z1].samples| && i1 < n
    requires z2 < |frames| && i2 < |frames[z2].samples| && i2 < n
    requires frames[z1].samples[i1] == frames[z2].samples[i2]
    ensures var vol := Volume(frames, GlobalNorm(frames), n);
      z1 * n + i1 < |vol| && z2 * n + i2 < |vol| && vol[z1 * n + i1] == vol[z2 * n + i2]
  {
    VolumeAt(frames, GlobalNorm(frames), n, z1, i1);
    VolumeAt(frames, GlobalNorm(frames), n, z2, i2);
  }

  /** Position `p` of a buffer of `d` layers of `n` values is value `p % n`
      of layer `p / n`. */
  lemma LayerPosition(p: nat, n: nat, d: nat)
    requires p < d * n
    ensures n > 0 && p / n < d && p % n < n && p == p / n * n + p % n
  {
    if p / n >= d {
      MulMonotone(d, p / n, n);
    }
  }

  /** Layer `z` of `d` ends inside the buffer. */
  lemma LayerEnd(z: nat, d: nat, n: nat)
    requires z < d
    ensures z * n + n <= d * n && z * n + n == (z + 1) * n
  {
    MulMonotone(z + 1, d, n);
    assert (z + 1) * n == z * n + n;
  }

  lemma MulMonotone(a: nat, b: nat, n: nat)
    requires a <= b
    ensures a * n <= b * n
  {
  }

  // ---------------------------------------------------------------------
  // The pipeline

  /** `width` and `height` after the loop: those of the last frame, 0 when
      no file had pixel data. */
  function LastDims(frames: seq<Frame>): (nat, nat) {
    if |frames| == 0 then (0, 0) else (frames[|frames| - 1].width, frames[|frames| - 1].height)
  }

  /** Every file with pixel data is drawn at the same size. */
  predicate UniformDims(files: seq<DicomFile>) {
    forall i, j :: 0 <= i < |files| && 0 <= j < |files| && FrameOf(files[i]).Some? && FrameOf(files[j]).Some? ==>
      FrameOf(files[i]).value.width == FrameOf(files[j]).value.width &&
      FrameOf(files[i]).value.height == FrameOf(files[j]).value.height
  }

  /** When every pixel-bearing file is drawn at one size, every layer fits
      the size taken from the last one: such an upload meets the
      precondition of `HandleUploadComplete`. */
  lemma UniformFramesFit(files: seq<DicomFile>)
    requires UniformDims(files)
    ensures var frames := Frames(SortByName(files));
      AllFit(frames, LastDims(frames).0 * LastDims(frames).1)
  {
    var sorted := SortByName(files);
    var frames := Frames(sorted);
    forall z | 0 <= z < |frames|
      ensures |frames[z].samples| <= LastDims(frames).0 * LastDims(frames).1
    {
      var last := frames[|frames| - 1];
      var a := SourceFile(files, frames[z]);
      var b := SourceFile(files, last);
      FrameOfFits(files[a]);
    }
  }

  /** The index of a picked file that yields a frame of the sorted list. */
  lemma SourceFile(files: seq<DicomFile>, fr: Frame) returns (i: nat)
    requires fr in Frames(SortByName(files))
    ensures i < |files| && FrameOf(files[i]) == Some(fr)
  {
    var sorted := SortByName(files);
    FramesMembership(sorted, fr);
    var k :| 0 <= k < |sorted| && FrameOf(sorted[k]) == Some(fr);
    assert sorted[k] in multiset(files);
    var j :| 0 <= j < |files| && files[j] == sorted[k];
    i := j;
  }

  /** What the viewer is handed. */
  datatype ProcessedData = ProcessedData(
    slices: seq<ImageData>,
    volumeData: array<real>,
    dimensions: (nat, nat, nat),
    bodyRegion: BodyRegion,
    metadata: DicomMetadata)

  /** `handleUploadComplete`: an empty upload fails (reading the first file
      throws); otherwise the files are sorted by name, the first supplies
      the metadata and region, each file with pixel data is drawn as one
      slice and normalised into one layer of the volume. */
  method HandleUploadComplete(files: seq<DicomFile>, seriesName: string) returns (r: Result<ProcessedData>)
    requires var frames := Frames(SortByName(files));
      AllFit(frames, LastDims(frames).0 * LastDims(frames).1)
    ensures r.Failure? <==> |files| == 0
    ensures r.Success? ==>
      var sorted := SortByName(files);
      var frames := Frames(sorted);
      var data := r.value;
      && data.metadata == ParseDicomFile(sorted[0].parsed)
      && data.bodyRegion == DetectBodyRegion(data.metadata, seriesName)
      && data.dimensions == (LastDims(frames).0, LastDims(frames).1, |frames|)
      && |data.slices| == |frames|
      && (forall k :: 0 <= k < |frames| ==>
            && data.slices[k].Valid()
            && data.slices[k].width == frames[k].width && data.slices[k].height == frames[k].height
            && data.slices[k].data[..] == SliceImage(frames[k]))
      && data.volumeData[..] == Volume(frames, GlobalNorm(frames), LastDims(frames).0 * LastDims(frames).1)
    ensures r.Success? ==> fresh(r.value.volumeData)
    ensures r.Success? ==> forall k :: 0 <= k < |r.value.slices| ==> fresh(r.value.slices[k].data)
    ensures r.Success? ==> forall j, k :: 0 <= j < k < |r.value.slices| ==> r.value.slices[j].data != r.value.slices[k].data
    ensures r.Success? ==> forall k :: 0 <= k < |r.value.slices| ==> r.value.slices[k].data != r.value.volumeData
  {
    if |files| == 0 {
      return Failure("Error processing DICOM files");
    }
    var sorted := SortByName(files);
    var metadata := ParseDicomFile(sorted[0].parsed);
    var bodyRegion := DetectBodyRegion(metadata, seriesName);
    var slices, frames, width, height := DrawSlices(sorted);
    var volumeData := BuildVolume(frames, width, height);
    return Success(ProcessedData(slices, volumeData, (width, height, |frames|), bodyRegion, metadata));
  }

  /** After the file loop: the global extremes, then the volume normalised
      by them. */
  method BuildVolume(frames: seq<Frame>, width: nat, height: nat) returns (volumeData: array<real>)
    requires AllFit(frames, width * height)
    ensures fresh(volumeData)
    ensures volumeData[..] == Volume(frames, GlobalNorm(frames), width * height)
  {
    var lo, hi := GlobalExtrema(frames);
    // With no sample at all nothing is normalised; the divisor is immaterial.
    var norm := if lo.Some? then Normalize(lo.value, RangeOr1(lo.value, hi.value)) else Normalize(0, 1);
    assert norm == GlobalNorm(frames);
    volumeData := AssembleVolume(frames, width, height, norm);
  }

  /** The loop over the sorted files: each file with pixel data adds its
      samples as a layer, sets `width` and `height` from its own columns and
      rows, and adds its stretched display slice. */
  method DrawSlices(sorted: seq<DicomFile>)
    returns (slices: seq<ImageData>, frames: seq<Frame>, width: nat, height: nat)
    ensures frames == Frames(sorted)
    ensures (width, height) == LastDims(frames)
    ensures |slices| == |frames|
    ensures forall j :: 0 <= j < |slices| ==>
      && fresh(slices[j].data)
      && slices[j].Valid()
      && slices[j].width == frames[j].width && slices[j].height == frames[j].height
      && slices[j].data[..] == SliceImage(frames[j])
    ensures forall j, k :: 0 <= j < k < |slices| ==> slices[j].data != slices[k].data
  {
    slices, frames := [], [];
    width, height := 0, 0;
    var k := 0;
    while k < |sorted|
      invariant 0 <= k <= |sorted|
      invariant frames == Frames(sorted[..k])
      invariant (width, height) == LastDims(frames)
      invariant |slices| == |frames|
      invariant forall j :: 0 <= j < |slices| ==>
        && fresh(slices[j].data)
        && slices[j].Valid()
        && slices[j].width == frames[j].width && slices[j].height == frames[j].height
        && slices[j].data[..] == SliceImage(frames[j])
      invariant forall j, k :: 0 <= j < k < |slices| ==> slices[j].data != slices[k].data
    {
      var file := sorted[k];
      assert sorted[..k + 1][..k] == sorted[..k];
      var pixelData := GetPixelData(file.parsed);
      if pixelData.Some? {
        var localMetadata := ParseDicomFile(file.parsed);
        width := DimOr512(localMetadata.columns);
        height := DimOr512(localMetadata.rows);
        var frame := Frame(pixelData.value, width, height);
        FrameOfFits(file);
        frames := frames + [frame];
        var img := StretchSlice(frame);
        slices := slices + [img];
      }
      k := k + 1;
    }
    assert sorted[..k] == sorted;
  }

  /** The per-slice stretch of the loop: a fresh canvas image of the frame's
      size, written pixel by pixel. */
  method StretchSlice(fr: Frame) returns (img: ImageData)
    requires |fr.samples| <= fr.width * fr.height
    ensures fresh(img) && fresh(img.data) && img.Valid()
    ensures img.width == fr.width && img.height == fr.height
    ensures img.data[..] == SliceImage(fr)
  {
    img := new ImageData(fr.width, fr.height);
    var s := fr.samples;
    assert img.data.Length == 4 * (fr.width * fr.height);
    if |s| > 0 {
      MinLeMax(s);
      var lo, hi := MinOf(s).value, MaxOf(s).value;
      var range := RangeOr1(lo, hi);
      WritePixels(s, img.data, ToByte(lo, range));
    } else {
      assert img.data[..] == SliceImage(fr);
    }
  }

  /** The pixel loop of the stretch: pixel `i` gets `byte` of sample `i` in
      red, green and blue and 255 in alpha. */
  method WritePixels(s: seq<Sample>, data: array<real>, byte: Sample -> real)
    requires 4 * |s| <= data.Length
    requires forall p :: 0 <= p < data.Length ==> data[p] == 0.0
    modifies data
    ensures data[..] == RgbaBuffer(s, byte, data.Length)
  {
    ghost var want := RgbaBuffer(s, byte, data.Length);
    var i := 0;
    while i < |s|
      invariant 0 <= i <= |s|
      invariant forall p :: 0 <= p < 4 * i ==> data[p] == want[p]
      invariant forall p :: 4 * i <= p < data.Length ==> data[p] == 0.0
    {
      var normalized := byte(s[i]);
      var idx := i * 4;
      data[idx] := normalized;
      data[idx + 1] := normalized;
      data[idx + 2] := normalized;
      data[idx + 3] := 255.0;
      i := i + 1;
    }
    assert data[..] == want;
  }

  /** The first nested loop over the layers: the least and greatest sample
      of the whole series, None when there is no sample. */
  method GlobalExtrema(frames: seq<Frame>) returns (lo: Option<Sample>, hi: Option<Sample>)
    ensures lo == MinOf(AllSamples(frames)) && hi == MaxOf(AllSamples(frames))
  {
    lo, hi := None, None;
    var z := 0;
    while z < |frames|
      invariant 0 <= z <= |frames|
      invariant lo == MinOf(AllSamples(frames[..z])) && hi == MaxOf(AllSamples(frames[..z]))
    {
      lo, hi := ScanSlice(frames[z].samples, lo, hi, AllSamples(frames[..z]));
      assert frames[..z + 1][..z] == frames[..z];
      z := z + 1;
    }
    assert frames[..z] == frames;
  }

  /** The inner loop over one slice: the running extremes of `seen` become
      those of `seen` followed by the slice. */
  method ScanSlice(arr: seq<Sample>, lo0: Option<Sample>, hi0: Option<Sample>, ghost seen: seq<Sample>)
    returns (lo: Option<Sample>, hi: Option<Sample>)
    requires lo0 == MinOf(seen) && hi0 == MaxOf(seen)
    ensures lo == MinOf(seen + arr) && hi == MaxOf(seen + arr)
  {
    lo, hi := lo0, hi0;
    ghost var scanned := seen;
    var i := 0;
    while i < |arr|
      invariant 0 <= i <= |arr|
      invariant scanned == seen + arr[..i]
      invariant lo == MinOf(scanned) && hi == MaxOf(scanned)
    {
      MinMaxOfSnoc(scanned, arr[i]);
      if lo.None? || arr[i] < lo.value {
        lo := Some(arr[i]);
      }
      if hi.None? || arr[i] > hi.value {
        hi := Some(arr[i]);
      }
      scanned := scanned + [arr[i]];
      assert arr[..i + 1] == arr[..i] + [arr[i]];
      i := i + 1;
    }
    assert arr[..i] == arr;
  }

  lemma MinMaxOfSnoc(t: seq<Sample>, v: Sample)
    ensures MinOf(t + [v]) == if MinOf(t).None? || v < MinOf(t).value then Some(v) else MinOf(t)
    ensures MaxOf(t + [v]) == if MaxOf(t).None? || v > MaxOf(t).value then Some(v) else MaxOf(t)
  {
    assert (t + [v])[..|t|] == t;
  }

  /** The second nested loop: sample `i` of layer `z` written, normalised,
      at `z·width·height + i` of a zeroed buffer of `width·height·depth`
      values. */
  method AssembleVolume(frames: seq<Frame>, width: nat, height: nat, norm: Sample -> real)
    returns (volumeData: array<real>)
    requires AllFit(frames, width * height)
    ensures fresh(volumeData)
    ensures volumeData[..] == Volume(frames, norm, width * height)
  {
    ghost var n := width * height;
    ghost var want := Volume(frames, norm, n);
    var depth := |frames|;
    volumeData := new real[width * height * depth](_ => 0.0);
    assert volumeData.Length == depth * n == |want|;
    var z := 0;
    while z < depth
      invariant 0 <= z <= depth
      invariant forall p :: 0 <= p < z * n ==> volumeData[p] == want[p]
      invariant forall p :: z * n <= p < volumeData.Length ==> volumeData[p] == 0.0
    {
      var sliceData := frames[z].samples;
      var base := z * width * height;
      LayerTargets(frames, norm, n, z, base);
      WriteLayer(volumeData, base, sliceData, norm, want);
      LayerEnd(z, depth, n);
      z := z + 1;
    }
    assert volumeData[..] == want;
  }

  /** Where layer `z` goes: from `base` = `z·n`, its normalised samples,
      then zeros up to `base + n`, which the next layer starts at. */
  lemma LayerTargets(frames: seq<Frame>, norm: Sample -> real, n: nat, z: nat, base: int)
    requires AllFit(frames, n) && z < |frames| && base == z * n
    ensures base + n <= |Volume(frames, norm, n)|
    ensures forall i :: 0 <= i < |frames[z].samples| ==>
      Volume(frames, norm, n)[base + i] == norm(frames[z].samples[i])
    ensures forall p :: base + |frames[z].samples| <= p < base + n ==> Volume(frames, norm, n)[p] == 0.0
  {
    LayerSamples(frames, norm, n, z, base);
    LayerPadding(frames, norm, n, z, base);
    LayerEnd(z, |frames|, n);
  }

  lemma LayerSamples(frames: seq<Frame>, norm: Sample -> real, n: nat, z: nat, base: int)
    requires AllFit(frames, n) && z < |frames| && base == z * n
    ensures var want, s := Volume(frames, norm, n), frames[z].samples;
      forall i :: 0 <= i < |s| ==> base + i < |want| && want[base + i] == norm(s[i])
  {
    var s := frames[z].samples;
    forall i | 0 <= i < |s|
      ensures base + i < |Volume(frames, norm, n)| && Volume(frames, norm, n)[base + i] == norm(s[i])
    {
      VolumeAt(frames, norm, n, z, i);
    }
  }

  lemma LayerPadding(frames: seq<Frame>, norm: Sample -> real, n: nat, z: nat, base: int)
    requires AllFit(frames, n) && z < |frames| && base == z * n
    ensures var want, s := Volume(frames, norm, n), frames[z].samples;
      forall p :: base + |s| <= p < base + n ==> p < |want| && want[p] == 0.0
  {
    var s := frames[z].samples;
    forall p | base + |s| <= p < base + n
      ensures p < |Volume(frames, norm, n)| && Volume(frames, norm, n)[p] == 0.0
    {
      VolumeAt(frames, norm, n, z, p - base);
    }
  }

  /** The inner loop: the samples of one layer written, normalised, from
      `base` on; everything before stays as wanted, everything after 0. */
  method WriteLayer(volumeData: array<real>, base: nat, s: seq<Sample>, norm: Sample -> real, ghost want: seq<real>)
    requires base + |s| <= volumeData.Length == |want|
    requires forall p :: 0 <= p < base ==> volumeData[p] == want[p]
    requires forall p :: base <= p < volumeData.Length ==> volumeData[p] == 0.0
    requires forall i :: 0 <= i < |s| ==> want[base + i] == norm(s[i])
    modifies volumeData
    ensures forall p :: 0 <= p < base + |s| ==> volumeData[p] == want[p]
    ensures forall p :: base + |s| <= p < volumeData.Length ==> volumeData[p] == 0.0
  {
    var i := 0;
    while i < |s|
      invariant 0 <= i <= |s|
      invariant forall p :: 0 <= p < base + i ==> volumeData[p] == want[p]
      invariant forall p :: base + i <= p < volumeData.Length ==> volumeData[p] == 0.0
    {
      volumeData[base + i] := norm(s[i]);
      i := i + 1;
    }
  }
}

/** A two-file series worked through the pipeline's definitions. */
module IngestionExamples {
  import opened Types
  import opened DicomParser
  import opened Ingestion

  function TwoByTwo(samples: seq<Sample>): Option<DataSet> {
    Some(DataSet(map[], Some(2), Some(2), None, Some(samples)))
  }

  const First: seq<Sample> := [0, 100, 200, 300]
  const Second: seq<Sample> := [50, 150, 250, 350]

  const FileA := DicomFile("a.dcm", TwoByTwo(First))
  const FileB := DicomFile("b.dcm", TwoByTwo(Second))
  const Notes := DicomFile("notes", None)

  lemma NamesExample()
    ensures !NameLe("notes", "a.dcm") && !NameLe("b.dcm", "a.dcm") && NameLe("b.dcm", "notes")
  {
    assert "b.dcm"[0] == 'b' && "a.dcm"[0] == 'a' && "notes"[0] == 'n';
  }

  lemma InsertExamples()
    ensures Insert(Notes, [FileA]) == [FileA, Notes]
    ensures Insert(FileB, [FileA, Notes]) == [FileA, FileB, Notes]
  {
    var b, x, a := FileB, Notes, FileA;
    NamesExample();
    assert [a][1..] == [] && [a, x][1..] == [x];
    assert Insert(x, [a]) == [a] + Insert(x, []);
    assert Insert(b, [x]) == [b, x];
    assert Insert(b, [a, x]) == [a] + Insert(b, [x]);
  }

  lemma SortExample()
    ensures SortByName([FileB, Notes, FileA]) == [FileA, FileB, Notes]
  {
    var b, x, a := FileB, Notes, FileA;
    InsertExamples();
    assert [b, x, a][1..] == [x, a] && [x, a][1..] == [a] && [a][1..] == [];
    assert SortByName([a]) == Insert(a, []) == [a];
    assert SortByName([x, a]) == Insert(x, [a]);
    assert SortByName([b, x, a]) == Insert(b, [a, x]);
  }

  lemma FramesExample()
    ensures Frames([FileA, FileB, Notes]) == [Frame(First, 2, 2), Frame(Second, 2, 2)]
  {
    var b, x, a := FileB, Notes, FileA;
    assert First[..4] == First && Second[..4] == Second;
    assert GetPixelData(a.parsed) == Some(First);
    assert GetPixelData(b.parsed) == Some(Second);
    assert FrameOf(a) == Some(Frame(First, 2, 2));
    assert FrameOf(b) == Some(Frame(Second, 2, 2));
    assert [a, b, x][..2] == [a, b] && [a, b][..1] == [a] && [a][..0] == [];
    assert Frames([a]) == [] + [Frame(First, 2, 2)];
    assert Frames([a, b]) == Frames([a]) + [Frame(Second, 2, 2)];
    assert Frames([a, b, x]) == Frames([a, b]) + [];
  }

  /** Picked in the order "b", "notes", "a": the slices and layers still come
      in name order, and the file without pixel data is skipped. */
  lemma NameOrderNotUploadOrder()
    ensures Frames(SortByName([FileB, Notes, FileA])) == [Frame(First, 2, 2), Frame(Second, 2, 2)]
  {
    SortExample();
    FramesExample();
  }

  /** Each display slice is stretched by its own extremes: both slices start
      black and end white. */
  lemma SlicesStretchedAlone()
    ensures SliceStretch(First)(0) == 0.0 && SliceStretch(Second)(50) == 0.0
    ensures SliceStretch(First)(300) == 255.0 && SliceStretch(Second)(350) == 255.0
  {
    assert MinOf(First).value == 0 && MaxOf(First).value == 300 by {
      MinOfBounds(First);
      MaxOfBounds(First);
      assert First[0] == 0 && First[3] == 300;
    }
    assert MinOf(Second).value == 50 && MaxOf(Second).value == 350 by {
      MinOfBounds(Second);
      MaxOfBounds(Second);
      assert Second[0] == 50 && Second[3] == 350;
    }
    SliceStretchEnds(First);
    SliceStretchEnds(Second);
  }

  lemma GlobalNormExample()
    ensures GlobalNorm([Frame(First, 2, 2), Frame(Second, 2, 2)]) == Normalize(0, 350)
  {
    var frames := [Frame(First, 2, 2), Frame(Second, 2, 2)];
    assert frames[..1] == [Frame(First, 2, 2)] && frames[..1][..0] == [];
    assert AllSamples(frames[..1]) == [] + First;
    assert AllSamples(frames) == AllSamples(frames[..1]) + Second;
    var all := First + Second;
    assert AllSamples(frames) == all;
    assert MinOf(all).value == 0 && MaxOf(all).value == 350 by {
      MinOfBounds(all);
      MaxOfBounds(all);
      assert all[0] == 0 && all[7] == 350;
    }
  }

  lemma LayerOfFour(s: seq<Sample>, norm: Sample -> real)
    requires |s| == 4
    ensures Layer(s, norm, 4) == [norm(s[0]), norm(s[1]), norm(s[2]), norm(s[3])]
  {
  }

  /** The volume uses the extremes of the whole series: the second layer
      starts at 50/350, not at 0, and the layers interleave. */
  lemma VolumeNormalisedTogether()
    ensures var frames := [Frame(First, 2, 2), Frame(Second, 2, 2)];
      Volume(frames, GlobalNorm(frames), 4) ==
        [0.0, 2.0 / 7.0, 4.0 / 7.0, 6.0 / 7.0, 1.0 / 7.0, 3.0 / 7.0, 5.0 / 7.0, 1.0]
  {
    var frames := [Frame(First, 2, 2), Frame(Second, 2, 2)];
    GlobalNormExample();
    var norm := Normalize(0, 350);
    assert frames[..1] == [Frame(First, 2, 2)] && frames[..1][..0] == [];
    assert Volume(frames[..1], norm, 4) == [] + Layer(First, norm, 4);
    assert Volume(frames, norm, 4) == Volume(frames[..1], norm, 4) + Layer(Second, norm, 4);
    LayerOfFour(First, norm);
    LayerOfFour(Second, norm);
    assert Layer(First, norm, 4) == [0.0, 2.0 / 7.0, 4.0 / 7.0, 6.0 / 7.0] by {
      assert norm(100) == 100.0 / 350.0 == 2.0 / 7.0;
      assert norm(200) == 200.0 / 350.0 == 4.0 / 7.0;
      assert norm(300) == 300.0 / 350.0 == 6.0 / 7.0;
    }
    assert Layer(Second, norm, 4) == [1.0 / 7.0, 3.0 / 7.0, 5.0 / 7.0, 1.0] by {
      assert norm(50) == 50.0 / 350.0 == 1.0 / 7.0;
      assert norm(150) == 150.0 / 350.0 == 3.0 / 7.0;
      assert norm(250) == 250.0 / 350.0 == 5.0 / 7.0;
      assert norm(350) == 1.0;
    }
  }
}
