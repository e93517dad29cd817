/** The collection phase, sequentialised: every file the walk dispatches
    is filtered by content type, has its metadata selected and is
    registered in the index, one file at a time in walk order. */
module Pipeline {
  import opened Wrappers
  import opened ExifDate
  import opened Metadata
  import opened GroupingIndex
  import opened Walker

  const ImagePrefix: string := "image"

  /** The probe reported a content type that starts with "image". */
  predicate IsImage(f: FileInfo) {
    f.contentType.Some? && ImagePrefix <= f.contentType.value
  }

  /** The filter is a case-sensitive prefix test on the probed type. */
  lemma IsImageExamples()
    ensures IsImage(FileInfo("a.jpg", Some("image/jpeg"), None, "", 0))
    ensures IsImage(FileInfo("a.png", Some("image"), None, "", 0))
    ensures !IsImage(FileInfo("notes.txt", Some("text/plain"), None, "", 0))
    ensures !IsImage(FileInfo("a.PNG", Some("Image/png"), None, "", 0))
    ensures !IsImage(FileInfo("a", Some("imag"), None, "", 0))
    ensures !IsImage(FileInfo("a.bin", None, None, "", 0))
  {
    assert ImagePrefix <= "image/jpeg";
    assert "text/plain"[0] != ImagePrefix[0];
    assert "Image/png"[0] != ImagePrefix[0];
  }

  /** `processMetaInfoWithHandleException`: a metadata failure is caught
      and leaves the index as it was; otherwise the record read from the
      file goes to the fingerprint check. */
  function Process(idx: Index, f: FileInfo): (r: Index)
    ensures ReadMetaInfo(f).Failure? ==> r == idx
    ensures f.fingerprint in idx.seen ==> r == idx
    ensures r.seen == idx.seen + (if ReadMetaInfo(f).Success? then {f.fingerprint} else {})
    ensures ReadMetaInfo(f).Success? ==> r == Register(idx, ReadMetaInfo(f).value)
  {
    match ReadMetaInfo(f)
    case Failure(_) => idx
    case Success(info) => Register(idx, info)
  }

  /** A file whose record gets as far as the fingerprint check. */
  predicate Admitted(f: FileInfo) {
    IsImage(f) && ReadMetaInfo(f).Success?
  }

  /** The unit of work the walk submits to the pool for one non-directory
      entry: only an image reaches `Process`. The seen set gains the file's
      fingerprint exactly when the file is admitted; a file that is not
      admitted, or whose fingerprint was seen, changes nothing. */
  function Dispatch(idx: Index, f: FileInfo): (r: Index)
    ensures !Admitted(f) ==> r == idx
    ensures f.fingerprint in idx.seen ==> r == idx
    ensures r.seen == idx.seen + (if Admitted(f) then {f.fingerprint} else {})
  {
    if IsImage(f) then Process(idx, f) else idx
  }

  /** Every file in order, each one seeing the index its predecessors left. */
  function Run(idx: Index, files: seq<FileInfo>): (r: Index)
    ensures idx.seen <= r.seen
    ensures (forall i :: 0 <= i < |files| ==> !Admitted(files[i])) ==> r == idx
    decreases |files|
  {
    if files == [] then idx else Run(Dispatch(idx, files[0]), files[1..])
  }

  /** The index at the end of the collection phase for the tree at `root`. */
  function Organize(root: Entry): (r: Index)
    ensures Valid(r)
    ensures r.seen == AdmittedFingerprints(Walk(root))
  {
    EmptyValid();
    RunValid(Empty, Walk(root));
    RunSeen(Empty, Walk(root));
    Run(Empty, Walk(root))
  }

  function Images(files: seq<FileInfo>): (r: seq<FileInfo>)
    ensures forall f :: f in r <==> f in files && IsImage(f)
  {
    if files == [] then []
    else (if IsImage(files[0]) then [files[0]] else []) + Images(files[1..])
  }

  /** The fingerprints of the files that reach the fingerprint check. */
  function AdmittedFingerprints(files: seq<FileInfo>): set<string> {
    set f | f in files && Admitted(f) :: f.fingerprint
  }

  // ---- One file ---------------------------------------------------------

  /** A file that is not an image never reaches metadata selection or the
      index: the index is unchanged. */
  lemma NonImageChangesNothing(idx: Index, f: FileInfo)
    requires !IsImage(f)
    ensures Dispatch(idx, f) == idx
  {
  }

  /** A file whose metadata cannot be read, or that carries a "Date/Time"
      tag that does not parse, is abandoned before its fingerprint is
      looked at: the index is unchanged. */
  lemma BadMetadataChangesNothing(idx: Index, f: FileInfo)
    requires f.metadata.None? ||
             exists j :: 0 <= j < |f.metadata.value|
               && f.metadata.value[j].name == DateTimeTag
               && ParseDateTime(f.metadata.value[j].description).None?
    ensures Dispatch(idx, f) == idx
  {
  }

  /** A file whose fingerprint was already seen changes nothing. */
  lemma DuplicateChangesNothing(idx: Index, f: FileInfo)
    requires f.fingerprint in idx.seen
    ensures Dispatch(idx, f) == idx
  {
  }

  /** An admitted file with a new fingerprint is marked seen; it is filed
      under its key exactly when its timestamp is set. */
  lemma NewFingerprintRegistered(idx: Index, f: FileInfo)
    requires Admitted(f) && f.fingerprint !in idx.seen
    ensures Dispatch(idx, f).seen == idx.seen + {f.fingerprint}
    ensures var info := ReadMetaInfo(f).value;
            var g := Dispatch(idx, f).groups;
            if info.created.None? then g == idx.groups
            else
              var k := GroupKey(info).value;
              && k in g && g[k][|g[k]| - 1] == info
              && g[k][..|g[k]| - 1] == (if k in idx.groups then idx.groups[k] else [])
              && g.Keys == idx.groups.Keys + {k}
              && forall k' :: k' in idx.groups && k' != k ==> k' in g && g[k'] == idx.groups[k']
  {
    var info := ReadMetaInfo(f).value;
    assert info.file == f;
  }

  // ---- Whole runs --------------------------------------------------------

  lemma {:induction false} RunAppend(idx: Index, a: seq<FileInfo>, b: seq<FileInfo>)
    ensures Run(idx, a + b) == Run(Run(idx, a), b)
    decreases |a|
  {
    if a != [] {
      assert (a + b)[0] == a[0];
      assert (a + b)[1..] == a[1..] + b;
      RunAppend(Dispatch(idx, a[0]), a[1..], b);
    } else {
      assert a + b == b;
    }
  }

  /** Dropping the non-image files from a run changes nothing. */
  lemma {:induction false} RunIgnoresNonImages(idx: Index, files: seq<FileInfo>)
    ensures Run(idx, files) == Run(idx, Images(files))
    decreases |files|
  {
    if files != [] {
      RunIgnoresNonImages(Dispatch(idx, files[0]), files[1..]);
      if IsImage(files[0]) {
        var imgs := Images(files);
        assert imgs[0] == files[0] && imgs[1..] == Images(files[1..]);
      } else {
        assert Images(files) == Images(files[1..]);
      }
    }
  }

  /** The seen set after a run is the one before plus the fingerprints of
      exactly the admitted files; in particular it only grows. */
  lemma {:induction false} RunSeen(idx: Index, files: seq<FileInfo>)
    ensures Run(idx, files).seen == idx.seen + AdmittedFingerprints(files)
    decreases |files|
  {
    if files != [] {
      RunSeen(Dispatch(idx, files[0]), files[1..]);
      AdmittedFingerprintsCons(files);
    }
  }

  lemma AdmittedFingerprintsCons(files: seq<FileInfo>)
    requires files != []
    ensures AdmittedFingerprints(files)
            == (if Admitted(files[0]) then {files[0].fingerprint} else {})
               + AdmittedFingerprints(files[1..])
  {
    assert files == [files[0]] + files[1..];
  }

  /** A run keeps the index valid. */
  lemma {:induction false} RunValid(idx: Index, files: seq<FileInfo>)
    requires Valid(idx)
    ensures Valid(Run(idx, files))
    decreases |files|
  {
    if files != [] {
      var next := Dispatch(idx, files[0]);
      if IsImage(files[0]) && ReadMetaInfo(files[0]).Success? {
        RegisterValid(idx, ReadMetaInfo(files[0]).value);
      }
      RunValid(next, files[1..]);
    }
  }

  /** Lists only grow at their ends: whatever was filed stays where it was. */
  lemma {:induction false} RunAppendOnly(idx: Index, files: seq<FileInfo>)
    ensures forall k :: k in idx.groups ==>
              k in Run(idx, files).groups && idx.groups[k] <= Run(idx, files).groups[k]
    decreases |files|
  {
    if files != [] {
      var next := Dispatch(idx, files[0]);
      forall k | k in idx.groups
        ensures k in next.groups && idx.groups[k] <= next.groups[k]
      {
      }
      RunAppendOnly(next, files[1..]);
    }
  }

  lemma RunSingle(idx: Index, f: FileInfo)
    ensures Run(idx, [f]) == Dispatch(idx, f)
  {
    assert [f][1..] == [];
  }

  /** An admitted file is registered with the record read from it. */
  lemma AdmittedStep(idx: Index, f: FileInfo)
    requires Admitted(f)
    ensures ReadMetaInfo(f).value.file == f
    ensures Dispatch(idx, f) == Register(idx, ReadMetaInfo(f).value)
  {
  }

  lemma RunPair(idx: Index, a: FileInfo, b: FileInfo)
    ensures Run(idx, [a, b]) == Dispatch(Dispatch(idx, a), b)
  {
    assert [a, b][1..] == [b];
    RunSingle(Dispatch(idx, a), b);
  }

  /** Running one more file of a sequence is one more dispatch. */
  lemma RunPrefixStep(idx: Index, files: seq<FileInfo>, j: nat)
    requires j < |files|
    ensures Run(idx, files[..j + 1]) == Dispatch(Run(idx, files[..j]), files[j])
  {
    assert files[..j + 1] == files[..j] + [files[j]];
    RunAppend(idx, files[..j], [files[j]]);
    RunSingle(Run(idx, files[..j]), files[j]);
  }

  /** A run splits into the run of a prefix followed by the rest. */
  lemma RunSplit(idx: Index, files: seq<FileInfo>, j: nat)
    requires j <= |files|
    ensures Run(idx, files) == Run(Run(idx, files[..j]), files[j..])
  {
    assert files == files[..j] + files[j..];
    RunAppend(idx, files[..j], files[j..]);
  }

  /** No admitted file before position `j` carries fingerprint `fp`. */
  predicate FirstWith(files: seq<FileInfo>, j: nat, fp: string)
    requires j <= |files|
  {
    forall i :: 0 <= i < j && Admitted(files[i]) ==> files[i].fingerprint != fp
  }

  /** The files before the first admitted file with a fingerprint leave
      that fingerprint unseen. */
  lemma PrefixLeavesUnseen(idx: Index, files: seq<FileInfo>, j: nat, fp: string)
    requires j <= |files| && fp !in idx.seen && FirstWith(files, j, fp)
    ensures fp !in Run(idx, files[..j]).seen
  {
    RunSeen(idx, files[..j]);
  }

  /** Running up to and including the first admitted file with a
      fingerprint files that file's record under its key. */
  lemma FirstWriterFiled(idx: Index, files: seq<FileInfo>, j: nat)
    requires j < |files| && Admitted(files[j])
    requires files[j].fingerprint !in idx.seen
    requires FirstWith(files, j, files[j].fingerprint)
    requires ReadMetaInfo(files[j]).value.created.Some?
    ensures var info := ReadMetaInfo(files[j]).value;
            var g := Run(idx, files[..j + 1]).groups;
            var k := GroupKey(info).value;
            k in g && info in g[k]
  {
    var f := files[j];
    var before := Run(idx, files[..j]);
    PrefixLeavesUnseen(idx, files, j, f.fingerprint);
    NewFingerprintRegistered(before, f);
    RunPrefixStep(idx, files, j);
  }

  /** First writer wins: the first admitted file with a given fingerprint
      is the one whose record is filed, at its key, and in a run from a
      valid index it is the only record with that fingerprint. */
  lemma FirstWriterWins(idx: Index, files: seq<FileInfo>, j: nat)
    requires j < |files| && Admitted(files[j])
    requires files[j].fingerprint !in idx.seen
    requires FirstWith(files, j, files[j].fingerprint)
    requires ReadMetaInfo(files[j]).value.created.Some?
    ensures var info := ReadMetaInfo(files[j]).value;
            var g := Run(idx, files).groups;
            var k := GroupKey(info).value;
            k in g && info in g[k]
    ensures var info := ReadMetaInfo(files[j]).value;
            var g := Run(idx, files).groups;
            Valid(idx) ==>
              forall k', i :: At(g, k', i) && g[k'][i].file.fingerprint == files[j].fingerprint ==>
                g[k'][i] == info
  {
    var info := ReadMetaInfo(files[j]).value;
    var k := GroupKey(info).value;
    FirstWriterFiled(idx, files, j);
    var after := Run(idx, files[..j + 1]);
    RunSplit(idx, files, j + 1);
    RunAppendOnly(after, files[j + 1..]);
    var g := Run(idx, files).groups;
    assert after.groups[k] <= g[k];
    if Valid(idx) {
      RunValid(idx, files);
      var p :| 0 <= p < |g[k]| && g[k][p] == info;
      OnlyRecordWith(g, k, p);
    }
  }

  /** A run that starts with `fp` seen but unfiled never files it. */
  lemma {:induction false} SeenWithoutRecordStays(idx: Index, files: seq<FileInfo>, fp: string)
    requires fp in idx.seen && NoRecordWith(idx.groups, fp)
    ensures NoRecordWith(Run(idx, files).groups, fp)
    decreases |files|
  {
    if files != [] {
      var f := files[0];
      if Admitted(f) {
        AdmittedStep(idx, f);
        RegisterKeepsNoRecord(idx, ReadMetaInfo(f).value, fp);
      }
      SeenWithoutRecordStays(Dispatch(idx, f), files[1..], fp);
    }
  }

  /** A file that passes metadata selection without a "Date/Time" tag
      consumes its fingerprint without being filed, so no later file with
      the same fingerprint is filed either, however far down the walk. */
  lemma MissingDateBlocksLaterCopies(idx: Index, files: seq<FileInfo>, j: nat)
    requires Valid(idx)
    requires j < |files| && Admitted(files[j]) && ReadMetaInfo(files[j]).value.created.None?
    requires files[j].fingerprint !in idx.seen && FirstWith(files, j, files[j].fingerprint)
    ensures files[j].fingerprint in Run(idx, files).seen
    ensures NoRecordWith(Run(idx, files).groups, files[j].fingerprint)
  {
    var f := files[j];
    var fp := f.fingerprint;
    var before := Run(idx, files[..j]);
    RunValid(idx, files[..j]);
    PrefixLeavesUnseen(idx, files, j, fp);
    UnseenHasNoRecord(before, fp);
    AdmittedStep(before, f);
    var after := Dispatch(before, f);
    assert after.groups == before.groups && fp in after.seen;
    RunPrefixStep(idx, files, j);
    RunSplit(idx, files, j + 1);
    SeenWithoutRecordStays(after, files[j + 1..], fp);
  }
}
