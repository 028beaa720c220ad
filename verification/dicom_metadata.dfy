/** The DICOM source's metadata report: `dicom_to_dict` flattens a dataset
    in the DICOM JSON model (Annex F.2 of DICOM PS3.18) into a plain
    dictionary keyed by attribute keyword
    (sources/dicom/large_image_source_dicom/__init__.py:48-82), and
    `getInternalMetadata` merges the dictionaries of every dataset of every
    level, adding `key:idx` entries where a later dataset differs
    (sources/dicom/large_image_source_dicom/__init__.py:294-315). */
module DicomMetadata {
  import opened Wrappers
  import opened Strings

  /** A primitive JSON value of an element. */
  datatype Atom = AText(text: string) | ANumber(number: int)

  /** An element's `Value` list: primitive values, or nested datasets
      (sequence items and person-name component objects). */
  datatype Values = Atoms(atoms: seq<Atom>) | Objects(items: seq<Dataset>)

  /** One entry of a JSON object: a bare string, or an element object with
      an optional `vr` and an optional `Value` list. */
  datatype Entry = Text(text: string) | Element(vr: Option<string>, value: Option<Values>)

  /** A JSON object: its entries in order, keyed by tag (or, inside a
      person name, by component name). */
  datatype Dataset = Dataset(entries: seq<(string, Entry)>)

  /** A flattened value. */
  datatype Flat =
    | FText(text: string)
    | FAtom(atom: Atom)
    | FAtoms(atoms: seq<Atom>)
    | FItems(items: seq<map<string, Flat>>)

  /** `pydicom.datadict.keyword_for_tag`: `None` where it raises. */
  type Keywords = string -> Option<string>

  /** The dictionary key of a tag: its keyword, or the tag itself. */
  function KeyOf(tag: string, kw: Keywords): string {
    match kw(tag)
    case Some(k) => k
    case None => tag
  }

  /** An entry the flattening reports: a bare string, or an element whose
      `vr` is present and not `OB` and whose `Value` list is non-empty. */
  predicate Kept(e: Entry) {
    || e.Text?
    || (&& e.vr.Some? && e.vr.value != "OB" && e.value.Some?
        && match e.value.value
           case Atoms(xs) => |xs| > 0
           case Objects(ds) => |ds| > 0)
  }

  /** The flattened value of one entry. */
  function EntryValue(e: Entry, kw: Keywords): (r: Option<Flat>)
    ensures r.Some? <==> Kept(e)
    ensures e.Text? ==> r == Some(FText(e.text))
    ensures r.Some? && e.Element? && e.value.value.Objects? ==>
      r.value.FItems? && |r.value.items| == |e.value.value.items|
    ensures r.Some? && e.Element? && e.value.value.Atoms? ==>
      (if |e.value.value.atoms| == 1 then r.value == FAtom(e.value.value.atoms[0])
       else r.value == FAtoms(e.value.value.atoms))
    decreases e, 2
  {
    match e
    case Text(s) => Some(FText(s))
    case Element(vr, value) =>
      if vr.None? || vr.value == "OB" || value.None? then None
      else
        match value.value
        case Atoms(xs) =>
          if |xs| == 0 then None
          else if |xs| == 1 then Some(FAtom(xs[0]))
          else Some(FAtoms(xs))
        case Objects(ds) =>
          if |ds| == 0 then None
          else Some(FItems(seq(|ds|, i requires 0 <= i < |ds| => Flatten(ds[i], kw))))
  }

  /** `dicom_to_dict`: each kept entry stored under its key, a later entry
      with the same key replacing an earlier one. */
  function Flatten(ds: Dataset, kw: Keywords): map<string, Flat>
    decreases ds, 1
  {
    FlattenPrefix(ds, |ds.entries|, kw)
  }

  function FlattenPrefix(ds: Dataset, n: nat, kw: Keywords): map<string, Flat>
    requires n <= |ds.entries|
    decreases ds, 0, n
  {
    if n == 0 then
      map[]
    else
      var acc := FlattenPrefix(ds, n - 1, kw);
      var (tag, e) := ds.entries[n - 1];
      match EntryValue(e, kw)
      case None => acc
      case Some(v) => acc[KeyOf(tag, kw) := v]
  }

  /** The keys are exactly those of the kept entries. */
  lemma {:induction false} FlattenKeys(ds: Dataset, kw: Keywords, n: nat, k: string)
    requires n <= |ds.entries|
    ensures k in FlattenPrefix(ds, n, kw) <==>
      exists i | 0 <= i < n :: KeyOf(ds.entries[i].0, kw) == k && Kept(ds.entries[i].1)
  {
    if n > 0 {
      FlattenKeys(ds, kw, n - 1, k);
      var (tag, e) := ds.entries[n - 1];
      assert Kept(e) <==> EntryValue(e, kw).Some?;
    }
  }

  /** The value under a key is that of the last kept entry with the key. */
  lemma {:induction false} FlattenLastWins(ds: Dataset, kw: Keywords, n: nat, i: nat)
    requires i < n <= |ds.entries| && Kept(ds.entries[i].1)
    requires forall j | i < j < n ::
      KeyOf(ds.entries[j].0, kw) != KeyOf(ds.entries[i].0, kw) || !Kept(ds.entries[j].1)
    ensures KeyOf(ds.entries[i].0, kw) in FlattenPrefix(ds, n, kw)
    ensures FlattenPrefix(ds, n, kw)[KeyOf(ds.entries[i].0, kw)] == EntryValue(ds.entries[i].1, kw).value
  {
    var k := KeyOf(ds.entries[i].0, kw);
    FlattenStep(ds, n, kw);
    var (tag, e) := ds.entries[n - 1];
    var ev := EntryValue(e, kw);
    if i == n - 1 {
      assert ev.Some?;
    } else {
      FlattenLastWins(ds, kw, n - 1, i);
      assert ev.Some? ==> KeyOf(tag, kw) != k;
    }
  }

  /** Entry `n - 1` is added under its key when it is kept. */
  lemma FlattenStep(ds: Dataset, n: nat, kw: Keywords)
    requires 0 < n <= |ds.entries|
    ensures var acc, ev := FlattenPrefix(ds, n - 1, kw), EntryValue(ds.entries[n - 1].1, kw);
            FlattenPrefix(ds, n, kw) == if ev.None? then acc else acc[KeyOf(ds.entries[n - 1].0, kw) := ev.value]
  {
  }

  // ---- merging the datasets of every level ----

  /** The `:idx` ending of the keys added for dataset `idx`. */
  function IndexSuffix(idx: nat): (sfx: string)
    ensures |sfx| >= 2 && sfx[0] == ':'
    ensures forall j | 1 <= j < |sfx| :: IsDigit(sfx[j])
  {
    var digits := NatToString(idx);
    assert forall j | 1 <= j < |":" + digits| :: (":" + digits)[j] == digits[j - 1];
    ":" + digits
  }

  /** `'%s:%d' % (k, idx)`. */
  function Qualify(k: string, idx: nat): (q: string)
    ensures ':' in q && EndsWith(q, IndexSuffix(idx))
  {
    k + IndexSuffix(idx)
  }

  /** A qualified key names its key and index uniquely when the key holds
      no colon. */
  lemma QualifyUnique(k1: string, i1: nat, k2: string, i2: nat)
    requires ':' !in k1
    requires Qualify(k1, i1) == Qualify(k2, i2)
    ensures k1 == k2 && i1 == i2
  {
    var q := Qualify(k1, i1);
    var s1, s2 := IndexSuffix(i1), IndexSuffix(i2);
    assert q == k1 + s1 == k2 + s2;
    assert forall j | 0 <= j < |k1| :: q[j] == k1[j];
    assert forall j | |k1| < j < |q| :: q[j] == s1[j - |k1|];
    assert q[|k2|] == s2[0] == ':';
    assert |k1| == |k2|;
    assert k1 == q[..|k1|] == k2;
    assert s1 == q[|k1|..] == s2;
    assert NatToString(i1) == s1[1..] && NatToString(i2) == s2[1..];
    NatToStringInjective(i1, i2);
  }

  /** A key qualified with index `i` carries no other index's ending. */
  lemma SuffixOfQualify(k: string, i: nat, j: nat)
    requires ':' !in k
    requires EndsWith(Qualify(k, i), IndexSuffix(j))
    ensures i == j
  {
    var q := Qualify(k, i);
    var p := q[..|q| - |IndexSuffix(j)|];
    assert q == p + IndexSuffix(j);
    QualifyUnique(k, i, p, j);
  }

  lemma QualifySameIndex(k1: string, k2: string, idx: nat)
    requires Qualify(k1, idx) == Qualify(k2, idx)
    ensures k1 == k2
  {
    var q := Qualify(k1, idx);
    assert |k1| == |k2|;
    assert k1 == q[..|k1|] == k2;
  }

  /** Key `k` of the `idx`-th dataset `info` is added: the accumulated
      dictionary lacks it or holds a different value. */
  predicate Differs(acc: map<string, Flat>, info: map<string, Flat>, k: string)
    requires k in info
  {
    k !in acc || acc[k] != info[k]
  }

  /** The entries added for the `idx`-th dataset `info`: each differing key
      under its qualified name, over the accumulated dictionary. */
  function Absorb(acc: map<string, Flat>, info: map<string, Flat>, idx: nat): map<string, Flat>
  {
    assert forall k1, k2 | Qualify(k1, idx) == Qualify(k2, idx) :: k1 == k2 by {
      forall k1, k2 | Qualify(k1, idx) == Qualify(k2, idx) ensures k1 == k2 {
        QualifySameIndex(k1, k2, idx);
      }
    }
    var added := map k | k in info && Differs(acc, info, k) :: Qualify(k, idx) := info[k];
    acc + added
  }

  /** Absorbing keeps every accumulated key and adds only qualified keys of
      differing entries. */
  lemma AbsorbKeys(acc: map<string, Flat>, info: map<string, Flat>, idx: nat, q: string)
    ensures q in Absorb(acc, info, idx) <==>
      q in acc || exists k | k in info && Differs(acc, info, k) :: q == Qualify(k, idx)
  {
  }

  /** An accumulated key without the dataset's ending keeps its value. */
  lemma AbsorbKeeps(acc: map<string, Flat>, info: map<string, Flat>, idx: nat, q: string)
    requires q in acc && !EndsWith(q, IndexSuffix(idx))
    ensures q in Absorb(acc, info, idx) && Absorb(acc, info, idx)[q] == acc[q]
  {
    AbsorbKeys(acc, info, idx, q);
    var added := map k | k in info && Differs(acc, info, k) :: Qualify(k, idx) := info[k];
    assert q !in added;
  }

  /** A differing key is added under its qualified name with its value; a
      key that does not differ adds nothing. */
  lemma AbsorbAdds(acc: map<string, Flat>, info: map<string, Flat>, idx: nat, k: string)
    requires k in info
    ensures Differs(acc, info, k) ==>
      Qualify(k, idx) in Absorb(acc, info, idx) && Absorb(acc, info, idx)[Qualify(k, idx)] == info[k]
    ensures !Differs(acc, info, k) ==>
      (Qualify(k, idx) in Absorb(acc, info, idx) <==> Qualify(k, idx) in acc)
  {
    var q := Qualify(k, idx);
    AbsorbKeys(acc, info, idx, q);
    forall k' | k' in info && Differs(acc, info, k') && q == Qualify(k', idx) ensures k' == k {
      QualifySameIndex(k, k', idx);
    }
  }

  /** The merged dictionary of the datasets in order: the first as it is,
      then each later one absorbed with its position. */
  function Merge(infos: seq<map<string, Flat>>): map<string, Flat>
    requires |infos| >= 1
  {
    if |infos| == 1 then infos[0]
    else Absorb(Merge(infos[..|infos| - 1]), infos[|infos| - 1], |infos| - 1)
  }

  /** Every key of the merge is a key of the first dataset, or a later
      dataset's key qualified with that dataset's position. */
  lemma {:induction false} MergeKeys(infos: seq<map<string, Flat>>, q: string)
    requires |infos| >= 1
    requires q in Merge(infos)
    ensures q in infos[0] || exists i, k | 1 <= i < |infos| && k in infos[i] :: q == Qualify(k, i)
  {
    var n := |infos|;
    if n > 1 {
      var init := infos[..n - 1];
      AbsorbKeys(Merge(init), infos[n - 1], n - 1, q);
      if q in Merge(init) {
        MergeKeys(init, q);
        assert forall i | 0 <= i < n - 1 :: init[i] == infos[i];
      }
    }
  }

  /** The first dataset's keys, which hold no colon, keep their values,
      and no other colon-free key appears. */
  lemma {:induction false} MergeFirst(infos: seq<map<string, Flat>>, k: string)
    requires |infos| >= 1 && ':' !in k
    ensures k in Merge(infos) <==> k in infos[0]
    ensures k in infos[0] ==> Merge(infos)[k] == infos[0][k]
  {
    var n := |infos|;
    if n > 1 {
      var init, idx := infos[..n - 1], n - 1;
      MergeFirst(init, k);
      AbsorbKeys(Merge(init), infos[idx], idx, k);
      var sfx := IndexSuffix(idx);
      assert !EndsWith(k, sfx) by {
        assert |sfx| <= |k| ==> k[|k| - |sfx|] != ':';
      }
      if k in Merge(init) {
        AbsorbKeeps(Merge(init), infos[idx], idx, k);
      }
    }
  }

  /** A later dataset adds its key `k` under `k:idx` exactly when the first
      dataset lacks `k` or holds a different value for it; the added value
      is the later dataset's. */
  lemma {:induction false} MergeQualified(infos: seq<map<string, Flat>>, i: nat, k: string)
    requires 1 <= i < |infos| && ':' !in k
    requires forall q | q in infos[0] :: ':' !in q
    ensures Qualify(k, i) in Merge(infos) <==>
      k in infos[i] && (k !in infos[0] || infos[0][k] != infos[i][k])
    ensures Qualify(k, i) in Merge(infos) ==> Merge(infos)[Qualify(k, i)] == infos[i][k]
  {
    var n := |infos|;
    var init := infos[..n - 1];
    var acc := Merge(init);
    var q := Qualify(k, i);
    assert init[0] == infos[0];
    var idx := n - 1;
    AbsorbKeys(acc, infos[idx], idx, q);
    if i < idx {
      MergeQualified(init, i, k);
      assert init[i] == infos[i];
      assert !EndsWith(q, IndexSuffix(idx)) by {
        if EndsWith(q, IndexSuffix(idx)) {
          SuffixOfQualify(k, i, idx);
        }
      }
      forall k' | k' in infos[idx] && q == Qualify(k', idx) ensures false {
        QualifyUnique(k, i, k', idx);
      }
      if q in acc {
        AbsorbKeeps(acc, infos[idx], idx, q);
      }
    } else {
      MergeFirst(init, k);
      assert q !in acc by {
        if q in acc {
          MergeKeys(init, q);
          assert q !in infos[0];
          var i', k' :| 1 <= i' < idx && k' in init[i'] && q == Qualify(k', i');
          QualifyUnique(k, i, k', i');
        }
      }
      if k in infos[i] {
        AbsorbAdds(acc, infos[i], i, k);
      }
    }
  }

  // ---- the report over every level ----

  /** The datasets of every level in order, numbered across levels. */
  function AllDatasets(levels: seq<seq<Dataset>>): (r: seq<Dataset>)
    ensures |r| == 0 <==> forall l | 0 <= l < |levels| :: |levels[l]| == 0
    ensures forall l, d | 0 <= l < |levels| && d in levels[l] :: d in r
  {
    if |levels| == 0 then []
    else
      var r := AllDatasets(levels[..|levels| - 1]) + levels[|levels| - 1];
      assert forall l | 0 <= l < |levels| - 1 :: levels[..|levels| - 1][l] == levels[l];
      r
  }

  /** `getInternalMetadata`: no `dicom` entry without datasets; otherwise
      the merge of the flattened datasets of every level. */
  function InternalMetadata(levels: seq<seq<Dataset>>, kw: Keywords): (r: map<string, map<string, Flat>>)
    ensures r.Keys <= {"dicom"}
    ensures "dicom" in r <==> exists l | 0 <= l < |levels| :: |levels[l]| > 0
  {
    var all := AllDatasets(levels);
    if |all| == 0 then map[]
    else map["dicom" := Merge(seq(|all|, i requires 0 <= i < |all| => Flatten(all[i], kw)))]
  }

  /** With datasets, the report holds the first dataset's colon-free keys
      with their values, and a later dataset's key `k` under `k:idx` exactly
      when it is new or differs from the first dataset's value. */
  lemma InternalMetadataMerges(levels: seq<seq<Dataset>>, kw: Keywords, idx: nat, k: string)
    requires idx < |AllDatasets(levels)| && ':' !in k
    requires forall q | q in Flatten(AllDatasets(levels)[0], kw) :: ':' !in q
    ensures "dicom" in InternalMetadata(levels, kw)
    ensures var first := Flatten(AllDatasets(levels)[0], kw);
      k in InternalMetadata(levels, kw)["dicom"] <==> k in first
    ensures var first, info := Flatten(AllDatasets(levels)[0], kw), Flatten(AllDatasets(levels)[idx], kw);
      idx >= 1 ==>
        (Qualify(k, idx) in InternalMetadata(levels, kw)["dicom"] <==>
           k in info && (k !in first || first[k] != info[k]))
  {
    var all := AllDatasets(levels);
    var infos := seq(|all|, i requires 0 <= i < |all| => Flatten(all[i], kw));
    MergeFirst(infos, k);
    if idx >= 1 {
      MergeQualified(infos, idx, k);
    }
  }

  /** `getAssociatedImagesList`: the names among `label` and `macro`, in
      that order, whose image can be read. */
  function AssociatedImages(readable: string -> bool): (r: seq<string>)
    ensures forall n :: n in r <==> (n == "label" || n == "macro") && readable(n)
    ensures |r| == 2 ==> r == ["label", "macro"]
  {
    (if readable("label") then ["label"] else []) + (if readable("macro") then ["macro"] else [])
  }
}
