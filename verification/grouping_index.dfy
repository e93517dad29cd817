/** The deduplication and grouping index: the set of fingerprints seen so
    far and the map from group key to the records filed under it, in the
    order they were filed. Check-and-insert is one atomic step here. */
module GroupingIndex {
  import opened Wrappers
  import opened ExifDate
  import opened Metadata

  /** `File.separator` on the platforms the program targets. */
  const Separator: string := "/"

  type Groups = map<string, seq<MetaInfo>>

  datatype Index = Index(seen: set<string>, groups: Groups)

  const Empty: Index := Index({}, map[])

  /** The model segment of a key: Java string concatenation writes an
      unset model as the text "null". */
  function ModelText(model: Option<string>): string {
    match model
    case None => "null"
    case Some(m) => m
  }

  /** The group key `model + separator + yyyyMMdd(created)`; formatting an
      unset timestamp throws, which is the `MissingDate` error. */
  function GroupKey(info: MetaInfo): (r: Result<string, Error>)
    ensures r.Failure? <==> info.created.None?
    ensures r.Failure? ==> r.error == MissingDate
    ensures r.Success? ==>
              var m := ModelText(info.model);
              && |r.value| == |m| + |Separator| + 8
              && r.value[..|m|] == m
              && r.value[|m|..|m| + |Separator|] == Separator
              && r.value[|m| + |Separator|..] == FormatDay(info.created.value)
  {
    match info.created
    case None => Failure(MissingDate)
    case Some(d) => Success(ModelText(info.model) + Separator + FormatDay(d))
  }

  /** Files under the same key share model text and capture day, and vice
      versa; the eight-digit day segment keeps a separator inside a model
      name from merging two groups. */
  lemma GroupKeyInjective(a: MetaInfo, b: MetaInfo)
    requires a.created.Some? && b.created.Some?
    ensures GroupKey(a) == GroupKey(b) <==>
              && ModelText(a.model) == ModelText(b.model)
              && a.created.value.year == b.created.value.year
              && a.created.value.month == b.created.value.month
              && a.created.value.day == b.created.value.day
  {
    var ka, kb := GroupKey(a).value, GroupKey(b).value;
    var ma, mb := ModelText(a.model), ModelText(b.model);
    FormatDayInjective(a.created.value, b.created.value);
    if ka == kb {
      assert |ma| == |mb|;
      assert ma == ka[..|ma|] == kb[..|mb|] == mb;
      assert FormatDay(a.created.value) == ka[|ma| + |Separator|..];
    }
  }

  /** Appends `info` to the list under its key, creating the list when the
      key is new (`computeIfAbsent(...).add`). */
  function PutInfo(groups: Groups, info: MetaInfo): (r: Result<Groups, Error>)
    ensures r.Failure? <==> info.created.None?
    ensures r.Success? ==>
              var k := GroupKey(info).value;
              && r.value.Keys == groups.Keys + {k}
              && r.value[k] == (if k in groups then groups[k] else []) + [info]
              && forall k' :: k' in groups && k' != k ==> r.value[k'] == groups[k']
  {
    var k :- GroupKey(info);
    var list := if k in groups then groups[k] else [];
    Success(groups[k := list + [info]])
  }

  /** The fingerprint check of `processMetaInfo`: a fingerprint already
      seen changes nothing; a new one is marked seen and its record filed,
      unless filing throws for want of a timestamp, in which case the
      fingerprint stays marked and no record is filed. */
  function Register(idx: Index, info: MetaInfo): (r: Index)
    ensures info.file.fingerprint in idx.seen ==> r == idx
    ensures info.file.fingerprint !in idx.seen ==> r.seen == idx.seen + {info.file.fingerprint}
    ensures info.created.None? ==> r.groups == idx.groups
    ensures info.file.fingerprint !in idx.seen && info.created.Some? ==>
              r.groups == PutInfo(idx.groups, info).value
  {
    var fp := info.file.fingerprint;
    if fp in idx.seen then idx
    else
      var groups := match PutInfo(idx.groups, info)
                    case Success(g) => g
                    case Failure(_) => idx.groups;
      Index(idx.seen + {fp}, groups)
  }

  // ---- Totals over the group map --------------------------------------

  /** The sum of `w` over the lists of a group map, in no particular order. */
  ghost function MapSum(m: Groups, w: seq<MetaInfo> -> nat): nat
    decreases |m|
  {
    if m == map[] then 0
    else
      var k :| k in m;
      assert |m - {k}| < |m| by { assert m.Keys - {k} < m.Keys; }
      w(m[k]) + MapSum(m - {k}, w)
  }

  /** The sum may be taken apart at any key. */
  lemma {:induction false} MapSumPick(m: Groups, w: seq<MetaInfo> -> nat, k: string)
    requires k in m
    ensures MapSum(m, w) == w(m[k]) + MapSum(m - {k}, w)
    decreases |m|
  {
    var j :| j in m && MapSum(m, w) == w(m[j]) + MapSum(m - {j}, w);
    if j != k {
      var rest := m - {j};
      assert |rest| < |m| by { assert rest.Keys < m.Keys; }
      MapSumPick(rest, w, k);
      var both := rest - {k};
      assert m - {k} - {j} == both;
      assert |m - {k}| < |m| by { assert (m - {k}).Keys < m.Keys; }
      MapSumPick(m - {k}, w, j);
    }
  }

  /** Replacing the list under one key changes the sum by the difference. */
  lemma MapSumUpdate(m: Groups, w: seq<MetaInfo> -> nat, k: string, v: seq<MetaInfo>)
    ensures MapSum(m[k := v], w) == MapSum(m, w) - (if k in m then w(m[k]) else 0) + w(v)
  {
    MapSumPick(m[k := v], w, k);
    assert m[k := v] - {k} == m - {k};
    if k in m {
      MapSumPick(m, w, k);
    } else {
      assert m - {k} == m;
    }
  }

  function Length(list: seq<MetaInfo>): nat {
    |list|
  }

  /** The byte total of one list, summed front to back. */
  function ListBytes(list: seq<MetaInfo>): nat {
    if list == [] then 0 else ListBytes(list[..|list| - 1]) + list[|list| - 1].file.size
  }

  ghost function RecordCount(m: Groups): nat {
    MapSum(m, Length)
  }

  ghost function TotalBytes(m: Groups): nat {
    MapSum(m, ListBytes)
  }

  /** Filing a record adds exactly one record and exactly its size. */
  lemma PutInfoTotals(groups: Groups, info: MetaInfo)
    requires info.created.Some?
    ensures RecordCount(PutInfo(groups, info).value) == RecordCount(groups) + 1
    ensures TotalBytes(PutInfo(groups, info).value) == TotalBytes(groups) + info.file.size
  {
    var k := GroupKey(info).value;
    var list := if k in groups then groups[k] else [];
    var list' := list + [info];
    assert PutInfo(groups, info).value == groups[k := list'];
    assert Length(list') == Length(list) + 1;
    ListBytesSnoc(list, info);
    MapSumUpdate(groups, Length, k, list');
    MapSumUpdate(groups, ListBytes, k, list');
  }

  lemma ListBytesSnoc(list: seq<MetaInfo>, info: MetaInfo)
    ensures ListBytes(list + [info]) == ListBytes(list) + info.file.size
  {
    assert (list + [info])[..|list|] == list;
  }

  // ---- Invariant of the index ----------------------------------------

  /** Record `i` under key `k` exists. */
  predicate At(g: Groups, k: string, i: int) {
    k in g && 0 <= i < |g[k]|
  }

  /** The record is filed under its own key and its fingerprint is seen. */
  predicate Filed(seen: set<string>, k: string, rec: MetaInfo) {
    GroupKey(rec) == Success(k) && rec.file.fingerprint in seen
  }

  /** No two filed records share a fingerprint. */
  ghost predicate UniqueFingerprints(g: Groups) {
    forall k1, i1, k2, i2 ::
      At(g, k1, i1) && At(g, k2, i2)
      && g[k1][i1].file.fingerprint == g[k2][i2].file.fingerprint
      ==> k1 == k2 && i1 == i2
  }

  /** No filed record carries fingerprint `fp`. */
  ghost predicate NoRecordWith(g: Groups, fp: string) {
    forall k, i :: At(g, k, i) ==> g[k][i].file.fingerprint != fp
  }

  /** What every reachable index satisfies. */
  ghost predicate Valid(idx: Index) {
    && (forall k :: k in idx.groups ==> |idx.groups[k]| > 0)
    && (forall k, i :: At(idx.groups, k, i) ==> Filed(idx.seen, k, idx.groups[k][i]))
    && UniqueFingerprints(idx.groups)
    && RecordCount(idx.groups) <= |idx.seen|
  }

  lemma EmptyValid()
    ensures Valid(Empty)
  {
  }

  /** The map after filing `info`: the old records stay where they were
      and the new one is the last of its key's list. */
  lemma PutInfoShape(g: Groups, info: MetaInfo, k1: string, i1: int)
    requires info.created.Some?
    requires At(PutInfo(g, info).value, k1, i1)
    ensures var k := GroupKey(info).value;
            var g' := PutInfo(g, info).value;
            if k1 == k && i1 == |g'[k]| - 1 then g'[k1][i1] == info
            else At(g, k1, i1) && g'[k1][i1] == g[k1][i1]
  {
  }

  /** Filing a record with a timestamp and an unseen fingerprint into a
      valid index gives a valid index over the enlarged seen set. */
  lemma PutInfoValid(idx: Index, info: MetaInfo)
    requires Valid(idx)
    requires info.created.Some? && info.file.fingerprint !in idx.seen
    ensures Valid(Index(idx.seen + {info.file.fingerprint}, PutInfo(idx.groups, info).value))
  {
    var fp := info.file.fingerprint;
    var seen' := idx.seen + {fp};
    var g := idx.groups;
    var g' := PutInfo(g, info).value;
    var k := GroupKey(info).value;
    PutInfoTotals(g, info);
    assert |seen'| == |idx.seen| + 1;
    forall k1, i1 | At(g', k1, i1)
      ensures Filed(seen', k1, g'[k1][i1])
    {
      PutInfoShape(g, info, k1, i1);
      if !(k1 == k && i1 == |g'[k]| - 1) {
        assert Filed(idx.seen, k1, g[k1][i1]);
      }
    }
    forall k1, i1, k2, i2 |
      At(g', k1, i1) && At(g', k2, i2)
      && g'[k1][i1].file.fingerprint == g'[k2][i2].file.fingerprint
      ensures k1 == k2 && i1 == i2
    {
      PutInfoShape(g, info, k1, i1);
      PutInfoShape(g, info, k2, i2);
      if !(k1 == k && i1 == |g'[k]| - 1) {
        assert Filed(idx.seen, k1, g[k1][i1]);
      }
      if !(k2 == k && i2 == |g'[k]| - 1) {
        assert Filed(idx.seen, k2, g[k2][i2]);
      }
    }
  }

  /** Registration keeps the index valid and never forgets a fingerprint. */
  lemma RegisterValid(idx: Index, info: MetaInfo)
    requires Valid(idx)
    ensures Valid(Register(idx, info))
    ensures idx.seen <= Register(idx, info).seen
  {
    var fp := info.file.fingerprint;
    if fp !in idx.seen {
      if info.created.Some? {
        PutInfoValid(idx, info);
      } else {
        assert |idx.seen + {fp}| == |idx.seen| + 1;
      }
    }
  }

  /** A fingerprint that is seen but has no record never gets one: every
      later registration either finds it seen or files a record with a
      different fingerprint. */
  lemma RegisterKeepsNoRecord(idx: Index, info: MetaInfo, fp: string)
    requires fp in idx.seen && NoRecordWith(idx.groups, fp)
    ensures NoRecordWith(Register(idx, info).groups, fp)
  {
    if info.file.fingerprint !in idx.seen && info.created.Some? {
      var g' := Register(idx, info).groups;
      forall k, i | At(g', k, i)
        ensures g'[k][i].file.fingerprint != fp
      {
        PutInfoShape(idx.groups, info, k, i);
      }
    }
  }

  /** In a valid index a fingerprint not yet seen has no record. */
  lemma UnseenHasNoRecord(idx: Index, fp: string)
    requires Valid(idx) && fp !in idx.seen
    ensures NoRecordWith(idx.groups, fp)
  {
    forall k, i | At(idx.groups, k, i)
      ensures idx.groups[k][i].file.fingerprint != fp
    {
      assert Filed(idx.seen, k, idx.groups[k][i]);
    }
  }

  /** Under unique fingerprints a filed record is the only one with its
      fingerprint. */
  lemma OnlyRecordWith(g: Groups, k: string, p: int)
    requires UniqueFingerprints(g) && At(g, k, p)
    ensures forall k', i :: At(g, k', i) && g[k'][i].file.fingerprint == g[k][p].file.fingerprint ==>
              g[k'][i] == g[k][p]
  {
  }
}
