/** The storage statistics derived from the file list: the five chart
    buckets, the per-bucket counts and sizes, and the total the header shows,
    as `updateStorageStats` and `updateChart` recompute them from scratch. */
module Stats {
  import opened Strings
  import opened Classifier
  import opened Sizes
  import opened Catalog

  datatype Bucket = Images | Documents | TextFiles | AudioFiles | Others

  /** The `typeKey` both loops compute: images, pdf and documents together,
      text, audio, and everything else (video and other) as others. */
  function BucketOf(t: FileType): Bucket
  {
    match t
    case Image => Images
    case Pdf => Documents
    case Document => Documents
    case Text => TextFiles
    case Audio => AudioFiles
    case Video => Others
    case Other => Others
  }

  /** One number per bucket, as the `typeCount` and `typeBreakdown` objects
      hold them. */
  datatype PerBucket = PerBucket(images: nat, documents: nat, text: nat, audio: nat, others: nat)
  {
    function Get(b: Bucket): nat
    {
      match b
      case Images => images
      case Documents => documents
      case TextFiles => text
      case AudioFiles => audio
      case Others => others
    }

    /** The counters after adding `n` to the one of bucket `b`. */
    function Add(b: Bucket, n: nat): PerBucket
    {
      match b
      case Images => this.(images := images + n)
      case Documents => this.(documents := documents + n)
      case TextFiles => this.(text := text + n)
      case AudioFiles => this.(audio := audio + n)
      case Others => this.(others := others + n)
    }

    function Sum(): nat
    {
      images + documents + text + audio + others
    }
  }

  const AllZero := PerBucket(0, 0, 0, 0, 0)

  /** The number of files in each bucket. */
  function CountsOf(files: seq<FileRecord>): PerBucket
  {
    if files == [] then AllZero
    else
      var last := files[|files| - 1];
      CountsOf(files[..|files| - 1]).Add(BucketOf(last.fileType), 1)
  }

  /** The size of each bucket, in tenths of a byte. */
  function SizesOf(files: seq<FileRecord>): PerBucket
  {
    if files == [] then AllZero
    else
      var last := files[|files| - 1];
      SizesOf(files[..|files| - 1]).Add(BucketOf(last.fileType), ParseTenthBytes(last.size))
  }

  /** `totalBytes`: the labels of all files read back and added up, in
      tenths of a byte. */
  function TotalTenthBytes(files: seq<FileRecord>): nat
  {
    if files == [] then 0
    else TotalTenthBytes(files[..|files| - 1]) + ParseTenthBytes(files[|files| - 1].size)
  }

  /** Every file lands in exactly one bucket, so the counts add up to the
      number of files. */
  lemma {:induction false} CountsSumToLength(files: seq<FileRecord>)
    ensures CountsOf(files).Sum() == |files|
  {
    if files != [] {
      var init := files[..|files| - 1];
      CountsSumToLength(init);
      AddSpec(CountsOf(init), BucketOf(files[|files| - 1].fileType), 1);
    }
  }

  /** The bucket sizes add up to the total. */
  lemma {:induction false} SizesSumToTotal(files: seq<FileRecord>)
    ensures SizesOf(files).Sum() == TotalTenthBytes(files)
  {
    if files != [] {
      var init, last := files[..|files| - 1], files[|files| - 1];
      SizesSumToTotal(init);
      AddSpec(SizesOf(init), BucketOf(last.fileType), ParseTenthBytes(last.size));
    }
  }

  /** Adding `n` to bucket `b` raises that bucket and the sum by `n` and
      leaves every other bucket as it was. */
  lemma AddSpec(x: PerBucket, b: Bucket, n: nat)
    ensures x.Add(b, n).Get(b) == x.Get(b) + n
    ensures forall c :: c != b ==> x.Add(b, n).Get(c) == x.Get(c)
    ensures x.Add(b, n).Sum() == x.Sum() + n
  {
  }

  /** Adding to two buckets gives the same counters in either order. */
  lemma AddCommutes(x: PerBucket, b: Bucket, m: nat, c: Bucket, n: nat)
    ensures x.Add(b, m).Add(c, n) == x.Add(c, n).Add(b, m)
  {
  }

  /** An upload adds one to its own bucket, adds its size to the total, and
      leaves the other buckets alone. */
  lemma {:induction false} StatsOfPrepend(r: FileRecord, files: seq<FileRecord>)
    ensures CountsOf([r] + files) == CountsOf(files).Add(BucketOf(r.fileType), 1)
    ensures TotalTenthBytes([r] + files) == TotalTenthBytes(files) + ParseTenthBytes(r.size)
    decreases |files|
  {
    if files == [] {
      assert [r] + files == [r];
      assert [r][..0] == [];
    } else {
      var init, last := files[..|files| - 1], files[|files| - 1];
      var all := [r] + files;
      assert all[..|all| - 1] == [r] + init && all[|all| - 1] == last;
      StatsOfPrepend(r, init);
      AddCommutes(CountsOf(init), BucketOf(r.fileType), 1, BucketOf(last.fileType), 1);
    }
  }

  /** The statistics read only the sizes and types of the files: lists that
      differ only in other fields (the shared flag, say) have the same ones. */
  lemma {:induction false} StatsSeeOnlySizesAndTypes(a: seq<FileRecord>, b: seq<FileRecord>)
    requires |a| == |b|
    requires forall j :: 0 <= j < |a| ==> a[j].size == b[j].size && a[j].fileType == b[j].fileType
    ensures CountsOf(a) == CountsOf(b) && SizesOf(a) == SizesOf(b)
    ensures TotalTenthBytes(a) == TotalTenthBytes(b)
  {
    if a != [] {
      StatsSeeOnlySizesAndTypes(a[..|a| - 1], b[..|b| - 1]);
    }
  }

  /** Images, text and audio have a bucket of their own. */
  lemma SingleTypeBucket(u: FileType, t: FileType)
    requires t == Image || t == Text || t == Audio
    ensures BucketOf(u) == BucketOf(t) <==> u == t
  {
  }

  /** With the empty search a record passes the type filter `TypeName(t)`
      exactly when it has type `t`. */
  lemma EmptySearchMatchesType(f: FileRecord, t: FileType)
    ensures Matches(f, "", TypeName(t)) <==> f.fileType == t
  {
    assert [] <= Lower(f.name);
    TypeNameInjective(f.fileType, t);
  }

  /** For the buckets that hold a single type, the chart's count is the
      number of files the type filter shows with an empty search. */
  lemma {:induction false} SegmentMatchesTypeFilter(files: seq<FileRecord>, t: FileType)
    requires t == Image || t == Text || t == Audio
    ensures CountsOf(files).Get(BucketOf(t)) == |FilterFiles(files, "", TypeName(t))|
  {
    if files != [] {
      var init, last := files[..|files| - 1], files[|files| - 1];
      SegmentMatchesTypeFilter(init, t);
      FilterFilesSnoc(init, last, "", TypeName(t));
      assert init + [last] == files;
      AddSpec(CountsOf(init), BucketOf(last.fileType), 1);
      EmptySearchMatchesType(last, t);
      SingleTypeBucket(last.fileType, t);
    }
  }

  /** The numbers the chart plots, in the order of its legend: Images,
      Documents, Text Files, Audio, Others. */
  function ChartData(c: PerBucket): (data: seq<nat>)
    ensures |data| == 5 && data[0] + data[1] + data[2] + data[3] + data[4] == c.Sum()
    ensures data[0] == c.Get(Images) && data[1] == c.Get(Documents) && data[2] == c.Get(TextFiles)
    ensures data[3] == c.Get(AudioFiles) && data[4] == c.Get(Others)
  {
    [c.images, c.documents, c.text, c.audio, c.others]
  }

  /** The storage quota, 15 GiB. */
  const QuotaBytes: nat := 15 * 1024 * 1024 * 1024

  /** `usedPercentage`: the share of the quota in use, from a total in tenths
      of a byte. */
  function UsedFraction(tenthBytes: nat): (f: real)
    ensures 0.0 <= f
    ensures f <= 1.0 <==> tenthBytes <= 10 * QuotaBytes
  {
    tenthBytes as real / (10.0 * QuotaBytes as real)
  }

  /** Extending a prefix of the list by one file adds that file to the
      statistics of the prefix. */
  lemma StatsOfPrefix(files: seq<FileRecord>, i: nat)
    requires i < |files|
    ensures var f := files[i];
      && TotalTenthBytes(files[..i + 1]) == TotalTenthBytes(files[..i]) + ParseTenthBytes(f.size)
      && CountsOf(files[..i + 1]) == CountsOf(files[..i]).Add(BucketOf(f.fileType), 1)
      && SizesOf(files[..i + 1]) == SizesOf(files[..i]).Add(BucketOf(f.fileType), ParseTenthBytes(f.size))
  {
    assert files[..i + 1][..i] == files[..i];
  }

  /** The `forEach` loop of `updateStorageStats`: it reads every label back,
      adds it to the total, and adds one and the size to the file's bucket. */
  method Tally(files: seq<FileRecord>) returns (totalTenthBytes: nat, counts: PerBucket, sizes: PerBucket)
    ensures totalTenthBytes == TotalTenthBytes(files)
    ensures counts == CountsOf(files) && sizes == SizesOf(files)
  {
    totalTenthBytes, counts, sizes := 0, AllZero, AllZero;
    var i := 0;
    while i < |files|
      invariant 0 <= i <= |files|
      invariant totalTenthBytes == TotalTenthBytes(files[..i])
      invariant counts == CountsOf(files[..i]) && sizes == SizesOf(files[..i])
    {
      var bytes := ParseTenthBytes(files[i].size);
      var key := BucketOf(files[i].fileType);
      totalTenthBytes := totalTenthBytes + bytes;
      counts := counts.Add(key, 1);
      sizes := sizes.Add(key, bytes);
      StatsOfPrefix(files, i);
      i := i + 1;
    }
    assert files[..i] == files;
  }
}
