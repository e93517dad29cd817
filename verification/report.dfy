/** The integer part of the report: an "image count" and a byte total over
    an index. The program prints it right after the walk returns, while
    dispatched tasks may still be running; the model evaluates it over the
    index the sequential pass ends with. */
module Report {
  import opened Wrappers
  import opened ExifDate
  import opened Metadata
  import opened GroupingIndex
  import opened Pipeline

  /** The map restricted to the keys in `keys`. */
  function Restrict(m: Groups, keys: set<string>): (r: Groups)
    ensures r.Keys == m.Keys * keys
    ensures forall k :: k in r ==> r[k] == m[k]
  {
    map k | k in keys && k in m :: m[k]
  }

  /** Sums the sizes of one list, front to back. */
  method SumList(list: seq<MetaInfo>) returns (total: nat)
    ensures total == ListBytes(list)
  {
    total := 0;
    var i := 0;
    while i < |list|
      invariant i <= |list|
      invariant total == ListBytes(list[..i])
    {
      assert list[..i + 1][..i] == list[..i];
      total := total + list[i].file.size;
      i := i + 1;
    }
    assert list[..i] == list;
  }

  /** Adds up `w` over every list, one key at a time in arbitrary order. */
  method SumGroups(groups: Groups, w: seq<MetaInfo> -> nat) returns (total: nat)
    ensures total == MapSum(groups, w)
  {
    total := 0;
    var rest := groups.Keys;
    assert Restrict(groups, rest) == groups;
    while rest != {}
      invariant rest <= groups.Keys
      invariant total + MapSum(Restrict(groups, rest), w) == MapSum(groups, w)
      decreases rest
    {
      var k :| k in rest;
      MapSumPick(Restrict(groups, rest), w, k);
      assert Restrict(groups, rest) - {k} == Restrict(groups, rest - {k});
      total := total + w(groups[k]);
      rest := rest - {k};
    }
    assert Restrict(groups, {}) == map[];
  }

  /** The report as the program computes it: the count printed as the
      "total image count" is the number of group keys, and the byte total
      is the sum of every record's size. */
  method PrintReport(groups: Groups) returns (count: nat, bytes: nat)
    ensures count == |groups|
    ensures bytes == TotalBytes(groups)
  {
    count := |groups|;
    bytes := 0;
    var rest := groups.Keys;
    assert Restrict(groups, rest) == groups;
    while rest != {}
      invariant rest <= groups.Keys
      invariant bytes + TotalBytes(Restrict(groups, rest)) == TotalBytes(groups)
      decreases rest
    {
      var k :| k in rest;
      MapSumPick(Restrict(groups, rest), ListBytes, k);
      assert Restrict(groups, rest) - {k} == Restrict(groups, rest - {k});
      var listBytes := SumList(groups[k]);
      bytes := bytes + listBytes;
      rest := rest - {k};
    }
    assert Restrict(groups, {}) == map[];
  }

  /** The report with the image count the label promises: the number of
      records filed, across all groups. */
  method CorrectedReport(groups: Groups) returns (count: nat, bytes: nat)
    ensures count == RecordCount(groups)
    ensures bytes == TotalBytes(groups)
  {
    count := SumGroups(groups, Length);
    bytes := SumGroups(groups, ListBytes);
  }

  /** Two distinct images filed under one key: the program reports one
      image, the corrected report two. */
  lemma GroupCountUndercounts(a: FileInfo, b: FileInfo)
    requires Admitted(a) && Admitted(b) && a.fingerprint != b.fingerprint
    requires ReadMetaInfo(a).value.created.Some? && ReadMetaInfo(b).value.created.Some?
    requires GroupKey(ReadMetaInfo(a).value) == GroupKey(ReadMetaInfo(b).value)
    ensures |Run(Empty, [a, b]).groups| == 1
    ensures RecordCount(Run(Empty, [a, b]).groups) == 2
  {
    var ia, ib := ReadMetaInfo(a).value, ReadMetaInfo(b).value;
    AdmittedStep(Empty, a);
    AdmittedStep(Dispatch(Empty, a), b);
    RunPair(Empty, a, b);
    SameKeyTwoRecords(ia, ib);
  }

  /** Registering two records with distinct fingerprints and one key into
      an empty index yields one group holding two records. */
  lemma SameKeyTwoRecords(ia: MetaInfo, ib: MetaInfo)
    requires ia.file.fingerprint != ib.file.fingerprint
    requires ia.created.Some? && ib.created.Some? && GroupKey(ia) == GroupKey(ib)
    ensures |Register(Register(Empty, ia), ib).groups| == 1
    ensures RecordCount(Register(Register(Empty, ia), ib).groups) == 2
  {
    var k := GroupKey(ia).value;
    var mid := Register(Empty, ia);
    var last := Register(mid, ib);
    assert mid.groups.Keys == {k};
    assert last.groups.Keys == {k};
    assert |last.groups| == |last.groups.Keys|;
    PutInfoTotals(map[], ia);
    PutInfoTotals(mid.groups, ib);
  }

  /** Two photographs from camera "X100", both taken 2020:01:02 10:00:00,
      with different contents. */
  lemma SameDayPhotosReportOneImage()
    ensures var d := DateTime(2020, 1, 2, 10, 0, 0);
            var tags := [Tag(ModelTag, "X100"), Tag(DateTimeTag, FormatDateTime(d))];
            var a := FileInfo("/src/a.jpg", Some("image/jpeg"), Some(tags), "fa", 100);
            var b := FileInfo("/src/b.jpg", Some("image/jpeg"), Some(tags), "fb", 200);
            |Run(Empty, [a, b]).groups| == 1 && RecordCount(Run(Empty, [a, b]).groups) == 2
  {
    var d := DateTime(2020, 1, 2, 10, 0, 0);
    var tags := [Tag(ModelTag, "X100"), Tag(DateTimeTag, FormatDateTime(d))];
    var a := FileInfo("/src/a.jpg", Some("image/jpeg"), Some(tags), "fa", 100);
    var b := FileInfo("/src/b.jpg", Some("image/jpeg"), Some(tags), "fb", 200);
    ParseFormat(d, "");
    assert FormatDateTime(d) + "" == FormatDateTime(d);
    assert ImagePrefix <= "image/jpeg";
    assert IsLast(tags, 1, DateTimeTag);
    assert IsLast(tags, 0, ModelTag);
    var ia, ib := ReadMetaInfo(a).value, ReadMetaInfo(b).value;
    assert ia.model == ib.model && ia.created == ib.created == Some(d);
    GroupCountUndercounts(a, b);
  }
}
