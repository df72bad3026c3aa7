/// DicomSeriesManager.cpp: the catalog a directory scan builds. Every DICOM
/// file contributes its series-level attributes; the files are grouped by
/// Series Instance UID (0020,000E), the first file of a series supplying the
/// series' attributes, and the series are listed by description, then UID.
module SeriesCatalog {
  import opened Options
  import opened Sorting
  import opened SeriesRecords

  // ---------------------------------------------------------------------------
  // One file

  /** The elements of a file's data set the catalog reads; None for an absent element. */
  datatype DataSet = DataSet(
    seriesInstanceUID: Option<string>,  // (0020,000E)
    modality: Option<string>,           // (0008,0060)
    seriesDescription: Option<string>,  // (0008,103E)
    patientID: Option<string>,          // (0010,0020)
    studyInstanceUID: Option<string>,   // (0020,000D)
    studyDate: Option<string>,          // (0008,0020)
    pixelSpacing: Option<seq<real>>,    // (0028,0030)
    sliceThickness: Option<real>,       // (0018,0050)
    rows: Option<int>,                  // (0028,0010)
    columns: Option<int>)               // (0028,0011)

  /** The out-parameters of extractSeriesInfo. */
  datatype Extracted = Extracted(
    seriesUID: string, modality: string, seriesDescription: string, patientID: string,
    studyUID: string, studyDate: string, pixelSpacing: PixelSpacing, sliceThickness: real,
    rows: int, columns: int)

  datatype Extraction = Extraction(ok: bool, fields: Extracted)

  function Or<T>(o: Option<T>, default: T): T
  {
    if o.Some? then o.value else default
  }

  /** extractSeriesInfo, as written. `file` is None when the file cannot be read
      as DICOM; `before` is what the out-parameters hold on entry. A present
      element overwrites its out-parameter and an absent one leaves it alone,
      except that Pixel Spacing with fewer than two values, or none, gives
      1 x 1 mm, and no Slice Thickness gives 1 mm. The file is accepted when the
      UID is non-empty and rows and columns are positive afterwards. */
  function ExtractSeriesInfo(file: Option<DataSet>, before: Extracted): (r: Extraction)
    ensures file.None? ==> !r.ok && r.fields == before
    ensures r.ok <==> file.Some? && |r.fields.seriesUID| > 0 && r.fields.rows > 0 && r.fields.columns > 0
    ensures file.Some? && (file.value.pixelSpacing.None? || |file.value.pixelSpacing.value| < 2)
      ==> r.fields.pixelSpacing == PixelSpacing(1.0, 1.0)
    ensures file.Some? && file.value.sliceThickness.None? ==> r.fields.sliceThickness == 1.0
    ensures file.Some? && file.value.rows.None? ==> r.fields.rows == before.rows
  {
    if file.None? then Extraction(false, before)
    else
      var ds := file.value;
      var spacing :=
        if ds.pixelSpacing.Some? && |ds.pixelSpacing.value| >= 2
        then PixelSpacing(ds.pixelSpacing.value[0], ds.pixelSpacing.value[1])
        else PixelSpacing(1.0, 1.0);
      var fields := Extracted(
        Or(ds.seriesInstanceUID, before.seriesUID), Or(ds.modality, before.modality),
        Or(ds.seriesDescription, before.seriesDescription), Or(ds.patientID, before.patientID),
        Or(ds.studyInstanceUID, before.studyUID), Or(ds.studyDate, before.studyDate),
        spacing, Or(ds.sliceThickness, 1.0), Or(ds.rows, before.rows), Or(ds.columns, before.columns));
      Extraction(|fields.seriesUID| > 0 && fields.rows > 0 && fields.columns > 0, fields)
  }

  /** The out-parameters as scanDirectory should declare them: empty strings and
      zero rows and columns. Spacing and thickness are always assigned. */
  const Unset: Extracted := Extracted("", "", "", "", "", "", PixelSpacing(1.0, 1.0), 1.0, 0, 0)

  /** As written, the rows and columns scanDirectory passes are uninitialised:
      a file with a UID and Columns but no Rows element is accepted whenever the
      indeterminate rows value happens to be positive, and the series records it. */
  lemma MissingRowsAccepted()
    ensures
      var ds := DataSet(Some("1.2.840.1"), None, None, None, None, None, None, None, None, Some(512));
      var r := ExtractSeriesInfo(Some(ds), Unset.(rows := 512));
      r.ok && r.fields.rows == 512
  {
  }

  /** extractSeriesInfo with rows and columns initialised to 0: a file is
      accepted exactly when it is readable and carries a non-empty Series
      Instance UID and positive Rows and Columns, and the accepted attributes
      are the file's own. */
  function ExtractInitialised(file: Option<DataSet>): (r: Extraction)
    ensures r.ok <==>
      && file.Some? && file.value.seriesInstanceUID.Some? && |file.value.seriesInstanceUID.value| > 0
      && file.value.rows.Some? && file.value.rows.value > 0
      && file.value.columns.Some? && file.value.columns.value > 0
    ensures r.ok ==>
      && r.fields.seriesUID == file.value.seriesInstanceUID.value
      && r.fields.rows == file.value.rows.value && r.fields.columns == file.value.columns.value
  {
    ExtractSeriesInfo(file, Unset)
  }

  // ---------------------------------------------------------------------------
  // Grouping

  /** One entry of the recursive directory walk: its path, whether it is a
      regular file, whether the DICOM reader can open it, and its data set
      (None when it cannot be read). */
  datatype FileEntry = FileEntry(path: string, isRegularFile: bool, isDicom: bool, dataset: Option<DataSet>)

  /** The attributes an entry contributes, when it joins a series at all. */
  function Accepted(e: FileEntry): Option<Extracted>
  {
    if e.isRegularFile && e.isDicom then
      var r := ExtractInitialised(e.dataset);
      if r.ok then Some(r.fields) else None
    else None
  }

  /** One accepted file added to the map: a series seen for the first time takes
      the file's attributes; every file appends its path and counts one slice. */
  function AddFile(m: map<string, SeriesInfo>, path: string, x: Extracted): map<string, SeriesInfo>
  {
    var existing := if x.seriesUID in m then m[x.seriesUID] else DefaultSeriesInfo();
    var info :=
      if existing.seriesUID == "" then
        existing.(seriesUID := x.seriesUID, modality := x.modality, seriesDescription := x.seriesDescription,
                  patientID := x.patientID, studyUID := x.studyUID, studyDate := x.studyDate,
                  pixelSpacing := x.pixelSpacing, sliceThickness := x.sliceThickness,
                  imageRows := x.rows, imageCols := x.columns, numSlices := 0)
      else existing;
    m[x.seriesUID := info.(filePaths := info.filePaths + [path], numSlices := info.numSlices + 1)]
  }

  /** The series map after the walk has visited `entries`. */
  function Group(entries: seq<FileEntry>): map<string, SeriesInfo>
  {
    if entries == [] then map[]
    else
      var e := entries[|entries| - 1];
      var m := Group(entries[..|entries| - 1]);
      match Accepted(e)
      case None => m
      case Some(x) => AddFile(m, e.path, x)
  }

  /** Visiting one more entry adds it when it is accepted and leaves the map alone otherwise. */
  lemma GroupStep(entries: seq<FileEntry>, i: nat)
    requires i < |entries|
    ensures Accepted(entries[i]).None? ==> Group(entries[..i + 1]) == Group(entries[..i])
    ensures Accepted(entries[i]).Some? ==>
      Group(entries[..i + 1]) == AddFile(Group(entries[..i]), entries[i].path, Accepted(entries[i]).value)
  {
    assert entries[..i + 1][..i] == entries[..i];
  }

  /** Reference definition: the paths of the accepted files of series u, in walk order. */
  function PathsOf(entries: seq<FileEntry>, u: string): seq<string>
  {
    if entries == [] then []
    else
      var e := entries[|entries| - 1];
      var a := Accepted(e);
      PathsOf(entries[..|entries| - 1], u) + if a.Some? && a.value.seriesUID == u then [e.path] else []
  }

  /** Reference definition: the attributes of the first accepted file of series u. */
  function FirstOf(entries: seq<FileEntry>, u: string): Option<Extracted>
  {
    if entries == [] then None
    else
      var first := FirstOf(entries[..|entries| - 1], u);
      var a := Accepted(entries[|entries| - 1]);
      if first.Some? then first
      else if a.Some? && a.value.seriesUID == u then a
      else None
  }

  /** The series described by its first file's attributes and all its paths. */
  function Describe(x: Extracted, paths: seq<string>): SeriesInfo
  {
    SeriesInfo(x.seriesUID, x.modality, x.seriesDescription, x.patientID, x.studyUID, x.studyDate,
      |paths|, x.pixelSpacing, x.sliceThickness, x.rows, x.columns, paths)
  }

  /** The first accepted file of a series has that series' UID and a valid size,
      and the series has at least one path. */
  lemma {:induction false} FirstOfFacts(entries: seq<FileEntry>, u: string)
    ensures FirstOf(entries, u).Some? <==> |PathsOf(entries, u)| > 0
    ensures FirstOf(entries, u).Some? ==>
      var x := FirstOf(entries, u).value;
      x.seriesUID == u && |u| > 0 && x.rows > 0 && x.columns > 0
  {
    if entries != [] {
      FirstOfFacts(entries[..|entries| - 1], u);
    }
  }

  /** The series map holds one series per UID of an accepted file: the first
      such file's attributes, with every accepted path of that UID in walk order
      and a slice count equal to the number of paths. */
  lemma {:induction false} GroupIsFirstFileWithAllPaths(entries: seq<FileEntry>, u: string)
    ensures u in Group(entries) <==> FirstOf(entries, u).Some?
    ensures u in Group(entries) ==> Group(entries)[u] == Describe(FirstOf(entries, u).value, PathsOf(entries, u))
  {
    if entries != [] {
      var init := entries[..|entries| - 1];
      var e := entries[|entries| - 1];
      GroupIsFirstFileWithAllPaths(init, u);
      FirstOfFacts(init, u);
      var a := Accepted(e);
      if a.Some? && a.value.seriesUID == u {
        assert Group(entries) == AddFile(Group(init), e.path, a.value);
        assert PathsOf(entries, u) == PathsOf(init, u) + [e.path];
      } else {
        assert PathsOf(entries, u) == PathsOf(init, u);
        assert FirstOf(entries, u) == FirstOf(init, u);
      }
    }
  }

  /** Every series in the map is valid and keyed by its own UID, so the validity
      filter after the walk keeps all of them. */
  lemma GroupsValid(entries: seq<FileEntry>)
    ensures forall u :: u in Group(entries) ==>
      && Group(entries)[u].seriesUID == u && Group(entries)[u].IsValid()
      && Group(entries)[u].numSlices == |Group(entries)[u].filePaths| == |PathsOf(entries, u)|
  {
    forall u | u in Group(entries)
      ensures Group(entries)[u].seriesUID == u && Group(entries)[u].IsValid()
      ensures Group(entries)[u].numSlices == |Group(entries)[u].filePaths| == |PathsOf(entries, u)|
    {
      GroupIsFirstFileWithAllPaths(entries, u);
      FirstOfFacts(entries, u);
    }
  }

  // ---------------------------------------------------------------------------
  // Ordering

  /** std::string's operator<: lexicographic by character, a proper prefix first. */
  predicate StringLess(a: string, b: string)
  {
    if |a| == 0 then |b| > 0
    else if |b| == 0 then false
    else if a[0] != b[0] then a[0] < b[0]
    else StringLess(a[1..], b[1..])
  }

  lemma {:induction false} StringLessIrreflexive(a: string)
    ensures !StringLess(a, a)
  {
    if |a| > 0 {
      StringLessIrreflexive(a[1..]);
    }
  }

  lemma {:induction false} StringLessTransitive(a: string, b: string, c: string)
    requires StringLess(a, b) && StringLess(b, c)
    ensures StringLess(a, c)
  {
    if |a| > 0 && a[0] == b[0] && b[0] == c[0] {
      StringLessTransitive(a[1..], b[1..], c[1..]);
    }
  }

  lemma {:induction false} StringLessTotal(a: string, b: string)
    requires a != b
    ensures StringLess(a, b) || StringLess(b, a)
  {
    if |a| > 0 && |b| > 0 && a[0] == b[0] {
      assert a == [a[0]] + a[1..] && b == [b[0]] + b[1..];
      StringLessTotal(a[1..], b[1..]);
    }
  }

  /** The comparison scanDirectory sorts with: by series description, then by series UID. */
  predicate SeriesBefore(a: SeriesInfo, b: SeriesInfo)
  {
    if a.seriesDescription != b.seriesDescription then StringLess(a.seriesDescription, b.seriesDescription)
    else StringLess(a.seriesUID, b.seriesUID)
  }

  /** Its non-strict counterpart. */
  predicate SeriesLe(a: SeriesInfo, b: SeriesInfo)
  {
    !SeriesBefore(b, a)
  }

  lemma SeriesBeforeTransitive(a: SeriesInfo, b: SeriesInfo, c: SeriesInfo)
    requires SeriesBefore(a, b) && SeriesBefore(b, c)
    ensures SeriesBefore(a, c)
  {
    if a.seriesDescription == b.seriesDescription && b.seriesDescription == c.seriesDescription {
      StringLessTransitive(a.seriesUID, b.seriesUID, c.seriesUID);
    } else if a.seriesDescription == b.seriesDescription || b.seriesDescription == c.seriesDescription {
    } else {
      StringLessTransitive(a.seriesDescription, b.seriesDescription, c.seriesDescription);
      if a.seriesDescription == c.seriesDescription {
        StringLessIrreflexive(a.seriesDescription);
      }
    }
  }

  lemma SeriesBeforeIrreflexive(a: SeriesInfo)
    ensures !SeriesBefore(a, a)
  {
    StringLessIrreflexive(a.seriesUID);
  }

  /** Two series with different UIDs are ordered one way or the other. */
  lemma SeriesBeforeTotal(a: SeriesInfo, b: SeriesInfo)
    requires a.seriesUID != b.seriesUID
    ensures SeriesBefore(a, b) || SeriesBefore(b, a)
  {
    if a.seriesDescription != b.seriesDescription {
      StringLessTotal(a.seriesDescription, b.seriesDescription);
    } else {
      StringLessTotal(a.seriesUID, b.seriesUID);
    }
  }

  lemma SeriesLeTotalPreorder()
    ensures TotalPreorder(SeriesLe)
  {
    forall a, b
      ensures SeriesLe(a, b) || SeriesLe(b, a)
    {
      if SeriesBefore(a, b) && SeriesBefore(b, a) {
        SeriesBeforeTransitive(a, b, a);
        SeriesBeforeIrreflexive(a);
      }
    }
    forall a, b, c | SeriesLe(a, b) && SeriesLe(b, c)
      ensures SeriesLe(a, c)
    {
      if SeriesBefore(c, a) {
        if a.seriesUID == b.seriesUID && a.seriesDescription == b.seriesDescription {
        } else if a.seriesUID != b.seriesUID {
          SeriesBeforeTotal(a, b);
          SeriesBeforeTransitive(c, a, b);
        } else {
          StringLessTotal(a.seriesDescription, b.seriesDescription);
          SeriesBeforeTransitive(c, a, b);
        }
      }
    }
  }

  // ---------------------------------------------------------------------------
  // The scan

  /** The walk of scanDirectory: every regular DICOM file whose attributes are
      accepted joins the series of its UID. */
  method GroupEntries(entries: seq<FileEntry>) returns (seriesMap: map<string, SeriesInfo>)
    ensures seriesMap == Group(entries)
  {
    seriesMap := map[];
    var i := 0;
    while i < |entries|
      invariant 0 <= i <= |entries|
      invariant seriesMap == Group(entries[..i])
    {
      var entry := entries[i];
      GroupStep(entries, i);
      ghost var before := seriesMap;
      if entry.isRegularFile {
        var filePath := entry.path;
        if entry.isDicom {
          var extracted := ExtractInitialised(entry.dataset);
          if extracted.ok {
            var x := extracted.fields;
            var seriesInfo := if x.seriesUID in seriesMap then seriesMap[x.seriesUID] else DefaultSeriesInfo();
            if seriesInfo.seriesUID == "" {
              seriesInfo := seriesInfo.(seriesUID := x.seriesUID, modality := x.modality,
                seriesDescription := x.seriesDescription, patientID := x.patientID,
                studyUID := x.studyUID, studyDate := x.studyDate, pixelSpacing := x.pixelSpacing,
                sliceThickness := x.sliceThickness, imageRows := x.rows, imageCols := x.columns,
                numSlices := 0);
            }
            seriesInfo := seriesInfo.(filePaths := seriesInfo.filePaths + [filePath]);
            seriesInfo := seriesInfo.(numSlices := seriesInfo.numSlices + 1);
            seriesMap := seriesMap[x.seriesUID := seriesInfo];
            assert seriesMap == AddFile(before, filePath, x);
          }
        }
      }
      i := i + 1;
    }
    assert entries[..i] == entries;
  }

  /** The map turned into a list, keeping the valid series. The list holds each
      valid series of the map once. */
  method CollectValid(seriesMap: map<string, SeriesInfo>) returns (collected: seq<SeriesInfo>)
    requires forall u :: u in seriesMap ==> seriesMap[u].seriesUID == u
    ensures forall s :: s in collected ==> s.seriesUID in seriesMap && s == seriesMap[s.seriesUID] && s.IsValid()
    ensures forall u :: u in seriesMap && seriesMap[u].IsValid() ==> seriesMap[u] in collected
    ensures forall k, l :: 0 <= k < l < |collected| ==> collected[k].seriesUID != collected[l].seriesUID
  {
    collected := [];
    var pending := seriesMap.Keys;
    while pending != {}
      invariant pending <= seriesMap.Keys
      invariant forall s :: s in collected ==> s.seriesUID in seriesMap && s.seriesUID !in pending && s == seriesMap[s.seriesUID] && s.IsValid()
      invariant forall u :: u in seriesMap && u !in pending && seriesMap[u].IsValid() ==> seriesMap[u] in collected
      invariant forall k, l :: 0 <= k < l < |collected| ==> collected[k].seriesUID != collected[l].seriesUID
      decreases |pending|
    {
      var key :| key in pending;
      var info := seriesMap[key];
      if info.IsValid() {
        collected := collected + [info];
      }
      pending := pending - {key};
    }
  }

  /** scanDirectory over the entries of a recursive walk. A root that is not a
      directory yields no series and an error. Otherwise the result holds
      exactly the valid series of the map, each once, in strictly ascending
      (description, UID) order. */
  method ScanDirectory(isDirectory: bool, entries: seq<FileEntry>) returns (seriesList: seq<SeriesInfo>, notDirectory: bool)
    ensures notDirectory <==> !isDirectory
    ensures !isDirectory ==> seriesList == []
    ensures forall s :: s in seriesList ==> s.seriesUID in Group(entries) && s == Group(entries)[s.seriesUID] && s.IsValid()
    ensures isDirectory ==> forall u :: u in Group(entries) && Group(entries)[u].IsValid() ==> Group(entries)[u] in seriesList
    ensures forall i, j :: 0 <= i < j < |seriesList| ==> SeriesBefore(seriesList[i], seriesList[j])
  {
    if !isDirectory {
      return [], true;
    }
    notDirectory := false;
    var seriesMap := GroupEntries(entries);
    GroupsValid(entries);
    var collected := CollectValid(seriesMap);

    var sorted := new SeriesInfo[|collected|](k requires 0 <= k < |collected| => collected[k]);
    assert sorted[..] == collected;
    SeriesLeTotalPreorder();
    InsertionSort(sorted, SeriesLe);
    seriesList := sorted[..];
    PermutationKeepsMembers(collected, seriesList);
    DistinctUIDsPermutation(collected, seriesList);
    forall k, l | 0 <= k < l < |seriesList|
      ensures SeriesBefore(seriesList[k], seriesList[l])
    {
      assert SeriesLe(seriesList[k], seriesList[l]);
      SeriesBeforeTotal(seriesList[k], seriesList[l]);
    }
  }

  lemma PermutationKeepsMembers<T>(a: seq<T>, b: seq<T>)
    requires multiset(a) == multiset(b)
    ensures forall x :: x in a <==> x in b
  {
    forall x
      ensures x in a <==> x in b
    {
      assert x in a <==> x in multiset(a);
      assert x in b <==> x in multiset(b);
    }
  }

  /** An element at two positions occurs at least twice. */
  lemma DuplicateCount<T>(b: seq<T>, i: nat, j: nat)
    requires i < j < |b| && b[i] == b[j]
    ensures multiset(b)[b[i]] >= 2
  {
    assert b == b[..j] + [b[j]] + b[j + 1..];
    assert b[i] in b[..j];
    assert multiset(b) == multiset(b[..j]) + multiset{b[j]} + multiset(b[j + 1..]);
  }

  /** An element that occurs at least twice sits at two positions. */
  lemma TwoPositions<T>(a: seq<T>, x: T)
    requires multiset(a)[x] >= 2
    ensures exists i, j :: 0 <= i < j < |a| && a[i] == x && a[j] == x
  {
    assert x in multiset(a);
    var i :| 0 <= i < |a| && a[i] == x;
    var rest := a[..i] + a[i + 1..];
    assert a == a[..i] + [a[i]] + a[i + 1..];
    assert multiset(a) == multiset(a[..i]) + multiset{x} + multiset(a[i + 1..]);
    assert multiset(rest)[x] >= 1;
    assert x in rest;
    var k :| 0 <= k < |rest| && rest[k] == x;
    if k < i {
      assert a[k] == x;
    } else {
      assert a[k + 1] == x;
    }
  }

  /** Series keyed by distinct UIDs stay so under permutation, when equal UIDs
      mean equal series. */
  lemma DistinctUIDsPermutation(a: seq<SeriesInfo>, b: seq<SeriesInfo>)
    requires multiset(a) == multiset(b)
    requires forall k, l :: 0 <= k < l < |a| ==> a[k].seriesUID != a[l].seriesUID
    requires forall s, t :: s in a && t in a && s.seriesUID == t.seriesUID ==> s == t
    ensures forall k, l :: 0 <= k < l < |b| ==> b[k].seriesUID != b[l].seriesUID
  {
    PermutationKeepsMembers(a, b);
    forall k, l | 0 <= k < l < |b|
      ensures b[k].seriesUID != b[l].seriesUID
    {
      if b[k].seriesUID == b[l].seriesUID {
        assert b[k] == b[l];
        DuplicateCount(b, k, l);
        TwoPositions(a, b[k]);
      }
    }
  }

  /** The catalog is determined by the map: two lists that each hold the same
      series, in strictly ascending order, are equal. So the unstable sort
      cannot make two scans of the same walk differ. */
  lemma {:induction false} CatalogUnique(s: seq<SeriesInfo>, t: seq<SeriesInfo>)
    requires forall i, j :: 0 <= i < j < |s| ==> SeriesBefore(s[i], s[j])
    requires forall i, j :: 0 <= i < j < |t| ==> SeriesBefore(t[i], t[j])
    requires forall x :: x in s <==> x in t
    ensures s == t
  {
    SameMembersBothEmpty(s, t);
    if s != [] {
      assert s[0] in t;
      assert t != [];
      assert t[0] in s;
      if s[0] != t[0] {
        var j :| 0 <= j < |t| && t[j] == s[0];
        var i :| 0 <= i < |s| && s[i] == t[0];
        assert SeriesBefore(t[0], s[0]);
        assert SeriesBefore(s[0], t[0]);
        SeriesBeforeTransitive(s[0], t[0], s[0]);
        SeriesBeforeIrreflexive(s[0]);
      }
      forall x
        ensures x in s[1..] <==> x in t[1..]
      {
        AfterHead(s, x);
        AfterHead(t, x);
      }
      CatalogUnique(s[1..], t[1..]);
      assert s == [s[0]] + s[1..] && t == [t[0]] + t[1..];
    }
  }

  lemma SameMembersBothEmpty<T>(s: seq<T>, t: seq<T>)
    requires forall x :: x in s <==> x in t
    ensures s == [] <==> t == []
  {
    if s != [] {
      assert s[0] in t;
    }
    if t != [] {
      assert t[0] in s;
    }
  }

  /** In a strictly ascending list, the tail holds everything but the head. */
  lemma AfterHead(s: seq<SeriesInfo>, x: SeriesInfo)
    requires s != [] && forall i, j :: 0 <= i < j < |s| ==> SeriesBefore(s[i], s[j])
    ensures x in s[1..] <==> x in s && x != s[0]
  {
    if x in s[1..] {
      var k :| 0 <= k < |s[1..]| && s[1..][k] == x;
      assert SeriesBefore(s[0], s[k + 1]);
      SeriesBeforeIrreflexive(s[0]);
    }
    if x in s && x != s[0] {
      var k :| 0 <= k < |s| && s[k] == x;
      assert s[1..][k - 1] == x;
    }
  }
}
