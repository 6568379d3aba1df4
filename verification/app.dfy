/** The `CloudStorageApp` object: the file list, the search and filter
    selection, the file picked for deletion, the upload limit setting, and
    the storage statistics (header total, used share of the quota and the
    chart's per-bucket counts) that it keeps in step with the file list. */
module App {
  import opened Strings
  import opened Classifier
  import opened Sizes
  import opened Catalog
  import opened Stats

  /** The four records `loadSampleData` installs. */
  function SampleFiles(): seq<FileRecord>
  {
    [ FileRecord("1", "project_presentation.pdf", SizeLabel(23, "MB"), Pdf, false),
      FileRecord("2", "vacation_photo.jpg", SizeLabel(18, "MB"), Image, true),
      FileRecord("3", "notes.txt", SizeLabel(5, "KB"), Text, false),
      FileRecord("4", "music_track.mp3", SizeLabel(42, "MB"), Audio, false) ]
  }

  /** The sample files add up to 8703692.8 bytes. */
  lemma SampleTotal()
    ensures TotalTenthBytes(SampleFiles()) == 87036928
  {
    var s := SampleFiles();
    assert s[..0] == [];
    StatsOfPrefix(s, 0);
    StatsOfPrefix(s, 1);
    StatsOfPrefix(s, 2);
    StatsOfPrefix(s, 3);
    assert s[..4] == s;
    assert UnitMultiplier("MB") == 1048576 && UnitMultiplier("KB") == 1024;
  }

  /** That total is shown as "8.3 MB". */
  lemma SampleTotalLabel()
    ensures FormatTenthBytes(87036928) == SizeLabel(83, "MB")
  {
    UnitIndexUnique(8703692, 2);
  }

  /** That total is under a thousandth of the quota. */
  lemma SampleUsedFraction()
    ensures UsedFraction(87036928) < 0.001
  {
    assert QuotaBytes == 16106127360;
  }

  // ---------------------------------------------------------------------
  // The constructor as written does not compute the statistics: it sets
  // `storageStats` to fixed values, and `init` loads the sample files and
  // draws the chart from the fixed breakdown without calling
  // `updateStorageStats`. Until the first upload or deletion the header
  // therefore shows a total the files do not add up to.

  /** The statistics the object holds right after construction. */
  datatype InitialStats = InitialStats(totalUsed: SizeLabel, usedPercentage: real, chartData: seq<nat>)

  function InitialStatsAsWritten(): InitialStats
  {
    InitialStats(SizeLabel(88, "MB"), 0.058, [1, 1, 1, 1, 0])
  }

  /** The fixed total and used share do not describe the sample files: they
      add up to "8.3 MB", not "8.8 MB", and to well under a thousandth of the
      quota, not 0.058 of it. */
  lemma InitialStatsCounterexample()
    ensures var fixed := InitialStatsAsWritten();
      var total := TotalTenthBytes(SampleFiles());
      && fixed.totalUsed != FormatTenthBytes(total)
      && fixed.usedPercentage != UsedFraction(total)
      && UsedFraction(total) < 0.001
  {
    SampleTotal();
    SampleTotalLabel();
    SampleUsedFraction();
  }

  class CloudStorageApp {
    var files: seq<FileRecord>
    var currentFilter: string
    var searchQuery: string
    var selectedFile: Option<FileRecord>
    /** `settings.maxFileSize`, as the settings form stores it ("100 MB"). */
    var maxFileSize: string
    /** `storageStats.totalUsed` and `storageStats.usedPercentage`. */
    var totalUsed: SizeLabel
    var usedPercentage: real
    /** The data set of the doughnut chart, one count per bucket. */
    var chartData: seq<nat>

    /** The statistics describe the current file list. */
    ghost predicate StatsCurrent()
      reads this
    {
      && totalUsed == FormatTenthBytes(TotalTenthBytes(files))
      && usedPercentage == UsedFraction(TotalTenthBytes(files))
      && chartData == ChartData(CountsOf(files))
    }

    /** The object invariant: current statistics, and a search query that is
        kept lower-cased, as the search box handler stores it. */
    ghost predicate Valid()
      reads this
    {
      StatsCurrent() && IsLowerCase(searchQuery)
    }

    /** The constructor followed by `loadSampleData`, with the statistics
        computed from the sample files (see `InitialStatsAsWritten`). */
    constructor()
      ensures Valid()
      ensures files == SampleFiles()
      ensures currentFilter == "all" && searchQuery == "" && selectedFile == None
      ensures maxFileSize == "100 MB"
    {
      files := SampleFiles();
      currentFilter := "all";
      searchQuery := "";
      selectedFile := None;
      maxFileSize := "100 MB";
      new;
      UpdateStorageStats();
    }

    /** The `updateChart` loop: count the files of each bucket and hand the
        five counts to the chart. */
    method UpdateChart()
      modifies this`chartData
      ensures chartData == ChartData(CountsOf(files))
    {
      var counts := AllZero;
      var i := 0;
      while i < |files|
        invariant 0 <= i <= |files|
        invariant counts == CountsOf(files[..i])
      {
        StatsOfPrefix(files, i);
        counts := counts.Add(BucketOf(files[i].fileType), 1);
        i := i + 1;
      }
      assert files[..i] == files;
      chartData := ChartData(counts);
    }

    /** `updateStorageStats`: add up the sizes read back from the labels,
        store the total and the used share, and refresh the chart. The
        per-bucket breakdown the loop also builds is discarded, as in the
        application. */
    method UpdateStorageStats()
      modifies this`totalUsed, this`usedPercentage, this`chartData
      ensures StatsCurrent()
    {
      var total, _, _ := Tally(files);
      totalUsed := FormatTenthBytes(total);
      usedPercentage := UsedFraction(total);
      UpdateChart();
    }

    /** `addFile`: the new record goes in front of the list, and the
        statistics are recomputed. */
    method AddFile(id: string, name: string, bytes: nat)
      requires Valid()
      modifies this
      ensures Valid()
      ensures files == [NewRecord(id, name, bytes)] + old(files)
      ensures currentFilter == old(currentFilter) && searchQuery == old(searchQuery)
      ensures selectedFile == old(selectedFile) && maxFileSize == old(maxFileSize)
    {
      files := [NewRecord(id, name, bytes)] + files;
      UpdateStorageStats();
    }

    /** One file of `handleFileUpload`: it is checked with `validateFile`
        against the current setting and added with `addFile` when it
        passes; a refused file leaves everything as it was. The simulated
        progress timer between the two is not modelled. */
    method UploadFile(id: string, name: string, bytes: nat) returns (accepted: bool)
      requires Valid()
      modifies this
      ensures Valid()
      ensures accepted == ValidateFile(bytes, old(maxFileSize))
      ensures files == if accepted then [NewRecord(id, name, bytes)] + old(files) else old(files)
      ensures currentFilter == old(currentFilter) && searchQuery == old(searchQuery)
      ensures selectedFile == old(selectedFile) && maxFileSize == old(maxFileSize)
    {
      accepted := ValidateFile(bytes, maxFileSize);
      if accepted {
        AddFile(id, name, bytes);
      }
    }

    /** `toggleShare`: the first record with the id has its shared flag
        flipped. The statistics are not recomputed, and need not be: they do
        not depend on the flag. */
    method ToggleShare(id: string)
      requires Valid()
      modifies this`files
      ensures Valid()
      ensures files == ToggleShared(old(files), id)
    {
      var before := files;
      files := ToggleShared(files, id);
      StatsSeeOnlySizesAndTypes(files, before);
    }

    /** `deleteFile`: remember the first record with the id (or none) until
        the user confirms. */
    method SelectForDelete(id: string)
      modifies this`selectedFile
      ensures selectedFile == Find(files, id)
    {
      selectedFile := Find(files, id);
    }

    /** `confirmDeleteFile`: without a selection nothing happens; otherwise
        every record with the selected id is removed, the statistics are
        recomputed and the selection is cleared. */
    method ConfirmDeleteFile()
      requires Valid()
      modifies this
      ensures Valid()
      ensures old(selectedFile).None? ==> files == old(files) && selectedFile == None
      ensures old(selectedFile).Some? ==>
        files == RemoveId(old(files), old(selectedFile).value.id) && selectedFile == None
      ensures currentFilter == old(currentFilter) && searchQuery == old(searchQuery)
      ensures maxFileSize == old(maxFileSize)
    {
      if selectedFile.None? {
        return;
      }
      files := RemoveId(files, selectedFile.value.id);
      UpdateStorageStats();
      selectedFile := None;
    }

    /** The search box handler: the query is stored lower-cased. */
    method SetSearchQuery(text: string)
      requires Valid()
      modifies this`searchQuery
      ensures Valid()
      ensures searchQuery == Lower(text)
    {
      searchQuery := Lower(text);
      LowerSpec(text);
    }

    /** The filter select handler. */
    method SetFilter(value: string)
      modifies this`currentFilter
      ensures currentFilter == value
    {
      currentFilter := value;
    }

    /** The records `filterFiles` hands to the renderer: those of the list,
        in its order and as often as the list holds them, whose name contains
        the query and whose type passes the filter. */
    function FilteredFiles(): (r: seq<FileRecord>)
      reads this
      ensures IsSubsequence(r, files)
      ensures forall f :: f in r <==> f in files && Matches(f, searchQuery, currentFilter)
      ensures forall f :: multiset(r)[f] == if Matches(f, searchQuery, currentFilter) then multiset(files)[f] else 0
    {
      FilterFilesSpec(files, searchQuery, currentFilter);
      FilterFiles(files, searchQuery, currentFilter)
    }
  }
}
