/** The per-file record and the selection of camera model and capture
    timestamp from the Exif IFD0 tags, in scan order. */
module Metadata {
  import opened Wrappers
  import opened ExifDate

  const ModelTag: string := "Model"
  const DateTimeTag: string := "Date/Time"

  /** One Exif IFD0 tag: its name and its textual description. */
  datatype Tag = Tag(name: string, description: string)

  /** What the program learns about one regular file from the filesystem
      and its collaborators: the content-type probe (`None` when the probe
      yields nothing or fails), the IFD0 tags of all Exif IFD0 directories
      in order (`None` when the metadata reader throws), the content
      fingerprint and the byte length. */
  datatype FileInfo = FileInfo(
    path: string,
    contentType: Option<string>,
    metadata: Option<seq<Tag>>,
    fingerprint: string,
    size: nat)

  /** The record kept for a file; `None` stands for a field left null. */
  datatype MetaInfo = MetaInfo(model: Option<string>, created: Option<Date>, file: FileInfo)

  /** Why a file's processing was abandoned. */
  datatype Error = UnreadableMetadata | BadDate(text: string) | MissingDate

  /** Tag `j` is the last one named `name`. */
  predicate IsLast(tags: seq<Tag>, j: int, name: string)
    requires 0 <= j < |tags|
  {
    tags[j].name == name && forall k :: j < k < |tags| ==> tags[k].name != name
  }

  /** Tag `j` is the first "Date/Time" tag from `lo` on whose description
      does not parse. */
  predicate FirstBadDate(tags: seq<Tag>, lo: int, j: int)
    requires 0 <= lo <= j < |tags|
  {
    && tags[j].name == DateTimeTag
    && ParseDateTime(tags[j].description).None?
    && forall m :: lo <= m < j && tags[m].name == DateTimeTag ==> ParseDateTime(tags[m].description).Some?
  }

  /** A tag at `i` that is not a failing date does not change which tag is
      the first failing date from `i + 1` on. */
  lemma FirstBadDateFrom(tags: seq<Tag>, i: nat)
    requires i < |tags|
    requires tags[i].name == DateTimeTag ==> ParseDateTime(tags[i].description).Some?
    ensures forall j :: i + 1 <= j < |tags| && FirstBadDate(tags, i + 1, j) ==> FirstBadDate(tags, i, j)
  {
  }

  /** Scans `tags[i..]` into `acc`: a model tag overwrites the model, a
      date tag is parsed and overwrites the timestamp, and the first date
      tag that does not parse ends the scan with an error. */
  function ScanTags(tags: seq<Tag>, i: nat, acc: MetaInfo): (r: Result<MetaInfo, Error>)
    requires i <= |tags|
    decreases |tags| - i
    ensures r.Success? <==>
              forall j :: i <= j < |tags| && tags[j].name == DateTimeTag ==>
                ParseDateTime(tags[j].description).Some?
    ensures r.Failure? ==>
              exists j :: i <= j < |tags| && FirstBadDate(tags, i, j)
                && r.error == BadDate(tags[j].description)
    ensures r.Success? ==> r.value.file == acc.file
    ensures r.Success? ==>
              forall j :: i <= j < |tags| && IsLast(tags, j, ModelTag) ==>
                r.value.model == Some(tags[j].description)
    ensures r.Success? && (forall j :: i <= j < |tags| ==> tags[j].name != ModelTag) ==>
              r.value.model == acc.model
    ensures r.Success? ==>
              forall j :: i <= j < |tags| && IsLast(tags, j, DateTimeTag) ==>
                r.value.created == ParseDateTime(tags[j].description)
    ensures r.Success? && (forall j :: i <= j < |tags| ==> tags[j].name != DateTimeTag) ==>
              r.value.created == acc.created
  {
    if i == |tags| then Success(acc)
    else
      var t := tags[i];
      if t.name == ModelTag then
        FirstBadDateFrom(tags, i);
        ScanTags(tags, i + 1, acc.(model := Some(t.description)))
      else if t.name == DateTimeTag then
        match ParseDateTime(t.description)
        case None =>
          assert FirstBadDate(tags, i, i);
          Failure(BadDate(t.description))
        case Some(d) =>
          FirstBadDateFrom(tags, i);
          ScanTags(tags, i + 1, acc.(created := Some(d)))
      else
        FirstBadDateFrom(tags, i);
        ScanTags(tags, i + 1, acc)
  }

  /** The record for `file` built from its tags, starting with both model
      and timestamp unset. */
  function SelectMeta(file: FileInfo, tags: seq<Tag>): (r: Result<MetaInfo, Error>)
    ensures r.Success? <==>
              forall j :: 0 <= j < |tags| && tags[j].name == DateTimeTag ==>
                ParseDateTime(tags[j].description).Some?
    ensures r.Failure? ==>
              exists j :: 0 <= j < |tags| && FirstBadDate(tags, 0, j)
                && r.error == BadDate(tags[j].description)
    ensures r.Success? ==> r.value.file == file
    ensures r.Success? ==>
              (r.value.model.Some? <==> exists j :: 0 <= j < |tags| && tags[j].name == ModelTag)
    ensures r.Success? ==>
              forall j :: 0 <= j < |tags| && IsLast(tags, j, ModelTag) ==>
                r.value.model == Some(tags[j].description)
    ensures r.Success? ==>
              (r.value.created.Some? <==> exists j :: 0 <= j < |tags| && tags[j].name == DateTimeTag)
    ensures r.Success? ==>
              forall j :: 0 <= j < |tags| && IsLast(tags, j, DateTimeTag) ==>
                r.value.created == ParseDateTime(tags[j].description)
  {
    LastExists(tags, ModelTag);
    LastExists(tags, DateTimeTag);
    ScanTags(tags, 0, MetaInfo(None, None, file))
  }

  /** If some tag carries `name`, one of them is the last. */
  lemma LastExists(tags: seq<Tag>, name: string)
    ensures (exists j :: 0 <= j < |tags| && tags[j].name == name) ==>
              exists j :: 0 <= j < |tags| && IsLast(tags, j, name)
  {
    var k := |tags|;
    while k > 0 && tags[k - 1].name != name
      invariant 0 <= k <= |tags|
      invariant forall m :: k <= m < |tags| ==> tags[m].name != name
    {
      k := k - 1;
    }
    if k > 0 {
      assert IsLast(tags, k - 1, name);
    }
  }

  /** Reads the metadata of `file`: a reader failure or a bad date aborts
      the file, otherwise the record carries the model and timestamp of
      the last matching tags. */
  function ReadMetaInfo(file: FileInfo): (r: Result<MetaInfo, Error>)
    ensures r.Success? <==>
              && file.metadata.Some?
              && forall j :: 0 <= j < |file.metadata.value| && file.metadata.value[j].name == DateTimeTag ==>
                   ParseDateTime(file.metadata.value[j].description).Some?
    ensures file.metadata.None? ==> r == Failure(UnreadableMetadata)
    ensures r.Failure? && file.metadata.Some? ==>
              exists j :: 0 <= j < |file.metadata.value| && FirstBadDate(file.metadata.value, 0, j)
                && r.error == BadDate(file.metadata.value[j].description)
    ensures r.Success? ==> r.value.file == file
    ensures r.Success? ==>
              (r.value.model.Some? <==>
                 exists j :: 0 <= j < |file.metadata.value| && file.metadata.value[j].name == ModelTag)
    ensures r.Success? ==>
              forall j :: 0 <= j < |file.metadata.value| && IsLast(file.metadata.value, j, ModelTag) ==>
                r.value.model == Some(file.metadata.value[j].description)
    ensures r.Success? ==>
              (r.value.created.Some? <==>
                 exists j :: 0 <= j < |file.metadata.value| && file.metadata.value[j].name == DateTimeTag)
    ensures r.Success? ==>
              forall j :: 0 <= j < |file.metadata.value| && IsLast(file.metadata.value, j, DateTimeTag) ==>
                r.value.created == ParseDateTime(file.metadata.value[j].description)
  {
    match file.metadata
    case None => Failure(UnreadableMetadata)
    case Some(tags) => SelectMeta(file, tags)
  }
}
